/** The sample-model registry `loadedModels`: an array of entries keyed by
    model name, searched with `find`/`findIndex`, appended to or overwritten
    in place on load, and spliced on delete. Also the controller lists of
    the sample-model folders, from which `deleteModel` removes the delete
    button. */
module Registry {
  import opened Wrappers

  /** Identity of a scene object (a loaded model root, a transform-control
      gizmo) or of a GUI folder. */
  type Id = nat

  /** One `loadedModels` entry: `{name, object, transformControls}` (`object` is the loaded scene root). */
  datatype Entry = Entry(name: string, sceneRoot: Id, transformControls: Id)

  /** The registry's names, in order. */
  function NameList(models: seq<Entry>): (names: seq<string>)
    ensures |names| == |models|
    ensures forall k :: 0 <= k < |models| ==> names[k] == models[k].name
  {
    if models == [] then [] else [models[0].name] + NameList(models[1..])
  }

  /** No two entries share a name. */
  ghost predicate NamesUnique(models: seq<Entry>)
  {
    forall i, j :: 0 <= i < j < |models| ==> models[i].name != models[j].name
  }

  /** `loadedModels.findIndex(m => m.name === name)`: the first index with
      that name, or -1. */
  function FindIndex(models: seq<Entry>, name: string): (r: int)
    ensures -1 <= r < |models|
    ensures r == -1 <==> forall k :: 0 <= k < |models| ==> models[k].name != name
    ensures 0 <= r ==> models[r].name == name && forall k :: 0 <= k < r ==> models[k].name != name
  {
    if models == [] then -1
    else if models[0].name == name then 0
    else
      var r := FindIndex(models[1..], name);
      if r < 0 then -1 else r + 1
  }

  /** The entry `find` returns for a name, if any. */
  function Lookup(models: seq<Entry>, name: string): Option<Entry>
  {
    var i := FindIndex(models, name);
    if i < 0 then None else Some(models[i])
  }

  /** The registry after a successful sample-model load: an entry with the
      same name is overwritten in place, otherwise the new entry is pushed. */
  function Upserted(models: seq<Entry>, e: Entry): seq<Entry>
  {
    var i := FindIndex(models, e.name);
    if i < 0 then models + [e] else models[i := e]
  }

  /** The registry after `deleteModel`: the entry found is spliced out. */
  function Removed(models: seq<Entry>, name: string): seq<Entry>
  {
    var i := FindIndex(models, name);
    if i < 0 then models else SpliceOut(models, i)
  }

  /** `splice(i, 1)` on a sequence of entries. */
  function SpliceOut(s: seq<Entry>, i: nat): seq<Entry>
    requires i < |s|
  {
    s[..i] + s[i + 1..]
  }

  /** Where each entry of the registry is after a load. */
  lemma UpsertedAt(models: seq<Entry>, e: Entry)
    ensures var i, r := FindIndex(models, e.name), Upserted(models, e);
      && |r| == (if i < 0 then |models| + 1 else |models|)
      && forall k :: 0 <= k < |r| ==> r[k] == if k == i || k == |models| then e else models[k]
  {
  }

  /** `splice(i, 1)` on a sequence: the elements before `i` stay put, the
      ones after it move down by one. */
  lemma SpliceAt(s: seq<Entry>, i: nat)
    requires i < |s|
    ensures |SpliceOut(s, i)| == |s| - 1
    ensures forall k :: 0 <= k < |s| - 1 ==> SpliceOut(s, i)[k] == if k < i then s[k] else s[k + 1]
  {
    var r := SpliceOut(s, i);
    forall k | 0 <= k < |s| - 1
      ensures r[k] == if k < i then s[k] else s[k + 1]
    {
      if k < i {
        assert r[k] == s[..i][k];
      } else {
        assert r[k] == s[i + 1..][k - i];
      }
    }
  }

  /** Where each entry of the registry is after a delete, given the index
      `findIndex` returns. */
  lemma RemovedAt(models: seq<Entry>, name: string, i: int)
    requires i == FindIndex(models, name)
    ensures i < 0 ==> Removed(models, name) == models
    ensures i >= 0 ==>
      && |Removed(models, name)| == |models| - 1
      && forall k :: 0 <= k < |models| - 1 ==> Removed(models, name)[k] == if k < i then models[k] else models[k + 1]
  {
    if i >= 0 {
      SpliceAt(models, i);
    }
  }

  /** `findIndex` gives the first position holding the name. */
  lemma FindIndexIs(models: seq<Entry>, name: string, i: nat)
    requires i < |models| && models[i].name == name
    requires forall k :: 0 <= k < i ==> models[k].name != name
    ensures FindIndex(models, name) == i
  {
  }

  /** A load keeps names unique and leaves the registry holding exactly the
      new entry for its name and the old entries for every other name. */
  lemma UpsertedLookup(models: seq<Entry>, e: Entry, other: string)
    requires NamesUnique(models)
    requires other != e.name
    ensures NamesUnique(Upserted(models, e))
    ensures Lookup(Upserted(models, e), e.name) == Some(e)
    ensures Lookup(Upserted(models, e), other) == Lookup(models, other)
  {
    var r := Upserted(models, e);
    var i := FindIndex(models, e.name);
    var o := FindIndex(models, other);
    if i < 0 {
      assert r[|models|] == e;
      assert forall k :: 0 <= k < |models| ==> r[k] == models[k];
      assert FindIndex(r, e.name) == |models|;
    } else {
      assert r[i] == e;
      assert forall k :: 0 <= k < |models| && k != i ==> r[k] == models[k];
      assert FindIndex(r, e.name) == i;
    }
    if o >= 0 {
      assert r[o] == models[o];
    }
  }

  /** Pushing an entry pushes its name. */
  lemma NameListSnoc(models: seq<Entry>, e: Entry)
    ensures NameList(models + [e]) == NameList(models) + [e.name]
  {
    var a, b := NameList(models + [e]), NameList(models) + [e.name];
    forall k | 0 <= k < |a|
      ensures a[k] == b[k]
    {
      if k < |models| {
        assert (models + [e])[k] == models[k];
      }
    }
  }

  /** Overwriting an entry with one of the same name keeps the names. */
  lemma NameListSameName(models: seq<Entry>, i: nat, e: Entry)
    requires i < |models| && models[i].name == e.name
    ensures NameList(models[i := e]) == NameList(models)
  {
    var a, b := NameList(models[i := e]), NameList(models);
    forall k | 0 <= k < |a|
      ensures a[k] == b[k]
    {
    }
  }

  /** A load never reorders the registry: reloading a name keeps the list
      of names as it was, a first load appends its name at the end. */
  lemma UpsertedNames(models: seq<Entry>, e: Entry)
    ensures NameList(Upserted(models, e)) ==
              if Lookup(models, e.name).Some? then NameList(models) else NameList(models) + [e.name]
  {
    var i := FindIndex(models, e.name);
    if i < 0 {
      NameListSnoc(models, e);
    } else {
      NameListSameName(models, i, e);
    }
  }

  /** The entries left by a delete have unique names and none of them has
      the deleted name. */
  lemma RemovedUnique(models: seq<Entry>, name: string)
    requires NamesUnique(models)
    ensures NamesUnique(Removed(models, name))
    ensures Lookup(Removed(models, name), name) == None
  {
    var i, r := FindIndex(models, name), Removed(models, name);
    RemovedAt(models, name, FindIndex(models, name));
    if i >= 0 {
      forall a, b | 0 <= a < b < |r|
        ensures r[a].name != r[b].name
      {
        var a0, b0 := if a < i then a else a + 1, if b < i then b else b + 1;
        assert r[a] == models[a0] && r[b] == models[b0];
      }
      forall k | 0 <= k < |r|
        ensures r[k].name != name
      {
        var k0 := if k < i then k else k + 1;
        assert r[k] == models[k0];
        if k0 < i {
          assert models[k0].name != models[i].name;
        } else {
          assert models[i].name != models[k0].name;
        }
      }
    }
  }

  /** A delete leaves every other name's entry as it was. */
  lemma RemovedOther(models: seq<Entry>, name: string, other: string)
    requires other != name
    ensures Lookup(Removed(models, name), other) == Lookup(models, other)
  {
    var i, r := FindIndex(models, name), Removed(models, name);
    RemovedAt(models, name, FindIndex(models, name));
    if i >= 0 {
      var o := FindIndex(models, other);
      if o >= 0 {
        var expected := if o < i then o else o - 1;
        assert r[expected] == models[o];
        forall k | 0 <= k < expected
          ensures r[k].name != other
        {
          assert r[k] == models[if k < i then k else k + 1];
        }
        FindIndexIs(r, other, expected);
      } else {
        forall k | 0 <= k < |r|
          ensures r[k].name != other
        {
          assert r[k] == models[if k < i then k else k + 1];
        }
      }
    }
  }

  /** A delete removes the only entry of its name, keeps names unique and
      leaves every other name's entry as it was; deleting an absent name
      changes nothing. */
  lemma RemovedLookup(models: seq<Entry>, name: string, other: string)
    requires NamesUnique(models)
    requires other != name
    ensures NamesUnique(Removed(models, name))
    ensures Lookup(Removed(models, name), name) == None
    ensures Lookup(Removed(models, name), other) == Lookup(models, other)
    ensures Lookup(models, name) == None ==> Removed(models, name) == models
    ensures |Removed(models, name)| == if Lookup(models, name).Some? then |models| - 1 else |models|
  {
    RemovedAt(models, name, FindIndex(models, name));
    RemovedUnique(models, name);
    RemovedOther(models, name, other);
  }

  /** A delete keeps the order of the remaining entries. */
  lemma RemovedKeepsOrder(models: seq<Entry>, name: string)
    ensures var i := FindIndex(models, name);
      i >= 0 ==> NameList(Removed(models, name)) == NameList(models)[..i] + NameList(models)[i + 1..]
  {
    var i := FindIndex(models, name);
    if i >= 0 {
      var r := Removed(models, name);
      var nl, rl := NameList(models), NameList(r);
      var expected := nl[..i] + nl[i + 1..];
      assert |rl| == |expected|;
      forall k | 0 <= k < |rl|
        ensures rl[k] == expected[k]
      {
        if k < i {
          assert r[k] == models[k];
        } else {
          assert r[k] == models[k + 1];
        }
      }
    }
  }

  /** Deleting twice is deleting once. */
  lemma RemovedIdempotent(models: seq<Entry>, name: string)
    requires NamesUnique(models)
    ensures Removed(Removed(models, name), name) == Removed(models, name)
  {
    RemovedLookup(models, name, name + "'");
  }

  /** Deleting a model that was just loaded for the first time gives back
      the registry as it was before the load. */
  lemma RemoveUndoesFirstLoad(models: seq<Entry>, e: Entry)
    requires Lookup(models, e.name) == None
    ensures Removed(Upserted(models, e), e.name) == models
  {
    var r := Upserted(models, e);
    assert r == models + [e];
    assert r[|models|] == e;
    assert forall k :: 0 <= k < |models| ==> r[k] == models[k];
    assert FindIndex(r, e.name) == |models|;
    assert r[..|models|] == models;
  }

  /** The first position of `x` in `s`, or -1: `Array.prototype.find` on a
      folder's controllers compared by name. */
  function IndexOf(s: seq<string>, x: string): (r: int)
    ensures -1 <= r < |s|
    ensures r == -1 <==> x !in s
    ensures 0 <= r ==> s[r] == x && x !in s[..r]
  {
    if s == [] then -1
    else if s[0] == x then 0
    else
      var r := IndexOf(s[1..], x);
      assert s[1..][..if r < 0 then 0 else r] == s[1..if r < 0 then 1 else r + 1];
      if r < 0 then -1 else r + 1
  }

  /** A folder's controllers after `folder.remove` of the first one named `x`. */
  function RemoveFirst(s: seq<string>, x: string): seq<string>
  {
    var i := IndexOf(s, x);
    if i < 0 then s else s[..i] + s[i + 1..]
  }

  /** Removing a controller takes away exactly one controller of that name
      when there is one, and nothing otherwise; all other controllers stay,
      in order. */
  lemma RemoveFirstSpec(s: seq<string>, x: string)
    ensures x !in s ==> RemoveFirst(s, x) == s
    ensures x in s ==> multiset(RemoveFirst(s, x)) == multiset(s) - multiset{x}
    ensures x in s ==> |RemoveFirst(s, x)| == |s| - 1
    ensures x in s ==> exists i :: 0 <= i < |s| && s[i] == x && x !in s[..i] && RemoveFirst(s, x) == s[..i] + s[i + 1..]
  {
    var i := IndexOf(s, x);
    if i >= 0 {
      assert s == s[..i] + [s[i]] + s[i + 1..];
      assert multiset(s) == multiset(s[..i]) + multiset{x} + multiset(s[i + 1..]);
      assert s[i] == x && x !in s[..i] && RemoveFirst(s, x) == s[..i] + s[i + 1..];
    }
  }

  /** A JavaScript value as the lookup of the delete button compares it. */
  datatype JsValue = JsString(text: string) | JsFunction

  /** `controller.name` of the controller labelled `caption`. dat.GUI gives
      every controller a `name` method, the one that sets its label (each
      folder entry is created with `.name(label)`), so read as a property
      it is a function whatever the label is. */
  function NameProperty(caption: string): JsValue
  {
    JsFunction
  }

  /** The lookup of the delete button as the handler writes it: the first
      controller whose `name` property is strictly equal to the label, or
      -1. */
  function FindByName(s: seq<string>, x: string): (r: int)
    ensures -1 <= r < |s|
    ensures r == -1 <==> forall k :: 0 <= k < |s| ==> NameProperty(s[k]) != JsString(x)
    ensures 0 <= r ==> NameProperty(s[r]) == JsString(x)
  {
    if s == [] then -1
    else if NameProperty(s[0]) == JsString(x) then 0
    else
      var r := FindByName(s[1..], x);
      if r < 0 then -1 else r + 1
  }

  /** A folder's controllers after the handler's removal of the delete
      button, with the lookup as written. */
  function RemoveByName(s: seq<string>, x: string): seq<string>
  {
    var i := FindByName(s, x);
    if i < 0 then s else s[..i] + s[i + 1..]
  }

  /** With the lookup as written, no controller is ever found, so the
      removal leaves every folder as it was. */
  lemma RemoveByNameKeepsAll(s: seq<string>, x: string)
    ensures FindByName(s, x) == -1
    ensures RemoveByName(s, x) == s
  {
  }

  /** On a sample folder holding its load and delete buttons, the removal
      as written keeps the delete button, while removing the controller
      labelled "Delete Deer" leaves only the load button. */
  lemma DeleteButtonSurvives(folder: seq<string>)
    requires folder == ["Deer", "Delete Deer"]
    ensures RemoveByName(folder, "Delete Deer") == folder
    ensures RemoveFirst(folder, "Delete Deer") == ["Deer"]
  {
    RemoveByNameKeepsAll(folder, "Delete Deer");
    assert folder[0] != "Delete Deer" && folder[1] == "Delete Deer";
    assert IndexOf(folder[1..], "Delete Deer") == 0;
    assert folder[..1] + folder[2..] == ["Deer"];
  }
}
