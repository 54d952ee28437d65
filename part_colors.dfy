/** The `partColors` palette of the single-import slot and what happens when
    the whole palette is reapplied to a freshly imported model: one
    recolouring traversal per key, in key order. Because part names match by
    substring, a mesh whose name contains several keys ends with the colour
    of the last of them. */
module PartColors {
  import opened Wrappers
  import opened Text
  import opened SceneGraph

  /** One palette entry: a part name and the colour the user picked for it. */
  datatype PartColor = PartColor(partName: string, colour: Colour)

  /** The palette keys, in the order the object literal lists them. */
  function PaletteKeys(pcs: seq<PartColor>): (keys: seq<string>)
    ensures |keys| == |pcs|
    ensures forall i :: 0 <= i < |pcs| ==> keys[i] == pcs[i].partName
  {
    if pcs == [] then [] else PaletteKeys(pcs[..|pcs| - 1]) + [pcs[|pcs| - 1].partName]
  }

  /** The startup palette: every part white. */
  const DefaultPartColors: seq<PartColor> := [
    PartColor("Cube", 0xffffff),
    PartColor("Cube_1", 0xffffff),
    PartColor("Cube_2", 0xffffff),
    PartColor("Cube_3", 0xffffff),
    PartColor("Cube_4", 0xffffff),
    PartColor("Cube_5", 0xffffff),
    PartColor("Cube_6", 0xffffff)
  ]

  const PartKeys: seq<string> := ["Cube", "Cube_1", "Cube_2", "Cube_3", "Cube_4", "Cube_5", "Cube_6"]

  /** The palette applied entry by entry, first key first. */
  function ApplyPartColors(n: Node, pcs: seq<PartColor>): Node
    decreases |pcs|
  {
    if pcs == [] then n
    else
      var last := pcs[|pcs| - 1];
      Traverse(ApplyPartColors(n, pcs[..|pcs| - 1]), Recolor(last.partName, last.colour))
  }

  /** The colour of the last palette entry whose key occurs in `name`, if any. */
  function LastMatch(pcs: seq<PartColor>, name: string): Option<Colour>
    decreases |pcs|
  {
    if pcs == [] then None
    else if Contains(name, pcs[|pcs| - 1].partName) then Some(pcs[|pcs| - 1].colour)
    else LastMatch(pcs[..|pcs| - 1], name)
  }

  /** `LastMatch` finds a colour exactly when some key occurs in the name,
      and then it is the colour of an entry whose key occurs in the name
      and after which no key does. */
  lemma {:induction false} LastMatchIsLast(pcs: seq<PartColor>, name: string)
    ensures LastMatch(pcs, name).Some? <==> exists k :: 0 <= k < |pcs| && Contains(name, pcs[k].partName)
    ensures LastMatch(pcs, name).Some? ==>
              exists k :: (0 <= k < |pcs| && Contains(name, pcs[k].partName)
                           && LastMatch(pcs, name).value == pcs[k].colour
                           && forall k' :: k < k' < |pcs| ==> !Contains(name, pcs[k'].partName))
    decreases |pcs|
  {
    if pcs != [] {
      var init := pcs[..|pcs| - 1];
      LastMatchIsLast(init, name);
      if !Contains(name, pcs[|pcs| - 1].partName) {
        assert forall k :: 0 <= k < |init| ==> init[k] == pcs[k];
      }
    }
  }

  /** Entries whose keys do not occur in the name can be dropped from the end. */
  lemma {:induction false} LastMatchSkip(pcs: seq<PartColor>, name: string, m: nat)
    requires m <= |pcs|
    requires forall k :: m <= k < |pcs| ==> !Contains(name, pcs[k].partName)
    ensures LastMatch(pcs, name) == LastMatch(pcs[..m], name)
    decreases |pcs|
  {
    if m < |pcs| {
      var init := pcs[..|pcs| - 1];
      assert init[..m] == pcs[..m];
      LastMatchSkip(init, name, m);
    } else {
      assert pcs[..m] == pcs;
    }
  }

  /** Reapplying the palette: node i keeps its name and kind; each of its
      materials keeps its wireframe flag, and when the node is a mesh and
      the material has a colour channel, the colour becomes that of the last
      key (in palette order) occurring in the node's name, or stays as it
      was when no key occurs in it. */
  lemma {:induction false} LastKeyWins(n: Node, pcs: seq<PartColor>, i: nat, j: nat)
    requires i < |Flatten(n)|
    requires j < |MaterialList(Flatten(n)[i].material)|
    ensures |Flatten(ApplyPartColors(n, pcs))| == |Flatten(n)|
    ensures
      var p, q := Flatten(n)[i], Flatten(ApplyPartColors(n, pcs))[i];
      && q.name == p.name && q.isMesh == p.isMesh
      && |MaterialList(q.material)| == |MaterialList(p.material)|
      && var m, m' := MaterialList(p.material)[j], MaterialList(q.material)[j];
         && m'.wireframe == m.wireframe
         && m'.color == (if p.isMesh && m.color.Some? && LastMatch(pcs, p.name).Some?
                         then LastMatch(pcs, p.name) else m.color)
    decreases |pcs|
  {
    if pcs != [] {
      var init, last := pcs[..|pcs| - 1], pcs[|pcs| - 1];
      LastKeyWins(n, init, i, j);
      var t := ApplyPartColors(n, init);
      RecolorEffect(t, last.partName, last.colour, i);
    }
  }

  /** A name that contains `s + t` contains `s`: every palette key after
      "Cube" extends it. */
  lemma ContainsPrefixOfPart(name: string, s: string, t: string)
    requires Contains(name, s + t)
    ensures Contains(name, s)
  {
    ContainsIff(name, s + t);
    var i :| OccursAt(name, s + t, i);
    assert name[i..i + |s|] == (s + t)[..|s|];
    assert OccursAt(name, s, i);
    ContainsIff(name, s);
  }

  /** With the startup palette, a mesh is recoloured by the reapplication
      exactly when its name contains "Cube" (every other key extends
      "Cube"), and then it is white. */
  lemma DefaultPaletteMatches(name: string)
    ensures LastMatch(DefaultPartColors, name).Some? <==> Contains(name, "Cube")
    ensures LastMatch(DefaultPartColors, name).Some? ==> LastMatch(DefaultPartColors, name).value == 0xffffff
  {
    LastMatchIsLast(DefaultPartColors, name);
    forall k | 0 <= k < |DefaultPartColors| && Contains(name, DefaultPartColors[k].partName)
      ensures Contains(name, "Cube")
    {
      if k > 0 {
        assert DefaultPartColors[k].partName == "Cube" + DefaultPartColors[k].partName[4..];
        ContainsPrefixOfPart(name, "Cube", DefaultPartColors[k].partName[4..]);
      }
    }
    if Contains(name, "Cube") {
      assert Contains(name, DefaultPartColors[0].partName);
    }
  }

  /** The ordering consequence with any palette in the source's key order:
      the mesh "Cube" takes the colour of key "Cube", and the mesh "Cube_5"
      takes the colour of key "Cube_5", not of "Cube", although both keys
      occur in its name. */
  lemma KeyOrderDecides(pcs: seq<PartColor>)
    requires PaletteKeys(pcs) == PartKeys
    ensures LastMatch(pcs, "Cube") == Some(pcs[0].colour)
    ensures LastMatch(pcs, "Cube_5") == Some(pcs[5].colour)
  {
    assert |pcs| == 7;
    assert forall k :: 0 <= k < 7 ==> pcs[k].partName == PartKeys[k];
    assert Contains("Cube", "Cube");
    LastMatchSkip(pcs, "Cube", 1);
    assert "Cube_5"[5] != "Cube_6"[5];
    assert Contains("Cube_5", "Cube_5");
    LastMatchSkip(pcs, "Cube_5", 6);
  }
}
