/** A loaded model's scene graph and the one way the viewer changes it:
    `traverse`, which visits the root and every descendant and lets a
    callback rewrite the materials of the nodes it picks. The viewer has two
    callbacks: the part recolouring of `updateModelPartColor` and the
    wireframe switch of `updateWireframeVisibility`. */
module SceneGraph {
  import opened Wrappers
  import opened Text

  /** A colour as a packed 0xRRGGBB integer. */
  type Colour = c: int | 0 <= c < 0x100_0000

  /** A material: its colour channel, when it has one, and its wireframe flag. */
  datatype Material = Material(color: Option<Colour>, wireframe: bool)

  /** What a node's `material` field holds: nothing (a group), one
      material, or an array of materials. */
  datatype Materials = NoMaterial | Single(only: Material) | Multi(all: seq<Material>)

  /** A scene-graph node and its children, in order. */
  datatype Node = Node(name: string, isMesh: bool, material: Materials, children: seq<Node>)

  /** A node's own fields without its children: what a traverse callback sees. */
  datatype Part = Part(name: string, isMesh: bool, material: Materials)

  function PartOf(n: Node): Part
  {
    Part(n.name, n.isMesh, n.material)
  }

  /** The materials of a node, however many its `material` field holds. */
  function MaterialList(ms: Materials): seq<Material>
  {
    match ms
    case NoMaterial => []
    case Single(m) => [m]
    case Multi(all) => all
  }

  /** The two traverse callbacks of the viewer. */
  datatype Visit = Recolor(partName: string, colour: Colour) | Wireframe(visible: bool)

  /** The nodes a callback acts on: meshes whose name contains the part name
      (`child.isMesh && child.name.includes(partName)`), or meshes that have
      a material (`child.isMesh && child.material`). */
  predicate Hits(v: Visit, p: Part)
  {
    match v
    case Recolor(partName, _) => p.isMesh && Contains(p.name, partName)
    case Wireframe(_) => p.isMesh && !p.material.NoMaterial?
  }

  /** A callback's effect on one material: `updateMaterialColor` sets the
      colour only of a material that has one; the wireframe callback sets
      the flag. */
  function SetMaterial(v: Visit, m: Material): (r: Material)
    ensures v.Recolor? ==> r.wireframe == m.wireframe && r.color.Some? == m.color.Some?
    ensures v.Recolor? && m.color.Some? ==> r.color == Some(v.colour)
    ensures v.Recolor? && m.color.None? ==> r == m
    ensures v.Wireframe? ==> r.color == m.color && r.wireframe == v.visible
  {
    match v
    case Recolor(_, c) => if m.color.Some? then m.(color := Some(c)) else m
    case Wireframe(b) => m.(wireframe := b)
  }

  /** A callback's effect on a node's `material` field: every material it
      holds, one or an array, is rewritten and the arity is kept. */
  function Rewrite(v: Visit, ms: Materials): (r: Materials)
    ensures r.NoMaterial? == ms.NoMaterial? && r.Single? == ms.Single?
    ensures |MaterialList(r)| == |MaterialList(ms)|
    ensures forall j :: 0 <= j < |MaterialList(ms)| ==>
              MaterialList(r)[j] == SetMaterial(v, MaterialList(ms)[j])
  {
    match ms
    case NoMaterial => NoMaterial
    case Single(m) => Single(SetMaterial(v, m))
    case Multi(all) => Multi(seq(|all|, j requires 0 <= j < |all| => SetMaterial(v, all[j])))
  }

  /** One callback invocation on one node. */
  function Visited(v: Visit, p: Part): Part
  {
    if Hits(v, p) then p.(material := Rewrite(v, p.material)) else p
  }

  /** `root.traverse(callback)`: the callback applied to every node of the tree. */
  function Traverse(n: Node, v: Visit): Node
    decreases n
  {
    Node(n.name, n.isMesh, Visited(v, PartOf(n)).material, TraverseAll(n.children, v))
  }

  function TraverseAll(ns: seq<Node>, v: Visit): (r: seq<Node>)
    ensures |r| == |ns|
    ensures forall j :: 0 <= j < |ns| ==> r[j] == Traverse(ns[j], v)
    decreases ns
  {
    if ns == [] then [] else [Traverse(ns[0], v)] + TraverseAll(ns[1..], v)
  }

  /** The order in which `traverse` visits nodes: a node, then each child's
      subtree in turn. */
  function Flatten(n: Node): seq<Part>
    decreases n
  {
    [PartOf(n)] + FlattenAll(n.children)
  }

  function FlattenAll(ns: seq<Node>): seq<Part>
    decreases ns
  {
    if ns == [] then [] else Flatten(ns[0]) + FlattenAll(ns[1..])
  }

  /** Whether a traversal hits some node: the `partFound` flag. */
  predicate AnyHit(n: Node, v: Visit)
    decreases n
  {
    Hits(v, PartOf(n)) || AnyHitAll(n.children, v)
  }

  predicate AnyHitAll(ns: seq<Node>, v: Visit)
    ensures AnyHitAll(ns, v) <==> exists j :: 0 <= j < |ns| && AnyHit(ns[j], v)
    decreases ns
  {
    ns != [] && (AnyHit(ns[0], v) || AnyHitAll(ns[1..], v))
  }

  /** Both trees have the same nodes with the same names, kinds and
      children, in the same places. */
  predicate SameShape(a: Node, b: Node)
    decreases a
  {
    a.name == b.name && a.isMesh == b.isMesh && SameShapeAll(a.children, b.children)
  }

  predicate SameShapeAll(xs: seq<Node>, ys: seq<Node>)
    decreases xs
  {
    |xs| == |ys| && (xs == [] || (SameShape(xs[0], ys[0]) && SameShapeAll(xs[1..], ys[1..])))
  }

  /** The callback applied to each part of a flattened tree. */
  function VisitedAll(v: Visit, ps: seq<Part>): seq<Part>
  {
    seq(|ps|, i requires 0 <= i < |ps| => Visited(v, ps[i]))
  }

  lemma VisitedAllAppend(v: Visit, a: seq<Part>, b: seq<Part>)
    ensures VisitedAll(v, a + b) == VisitedAll(v, a) + VisitedAll(v, b)
  {
  }

  /** A traversal visits every node of the tree exactly once, in order, and
      leaves each one as the callback makes it: node i of the traversed
      tree is the callback applied to node i of the original. */
  lemma {:induction false} TraverseFlatten(n: Node, v: Visit)
    ensures Flatten(Traverse(n, v)) == VisitedAll(v, Flatten(n))
    decreases n
  {
    TraverseAllFlatten(n.children, v);
    assert PartOf(Traverse(n, v)) == Visited(v, PartOf(n));
    VisitedAllAppend(v, [PartOf(n)], FlattenAll(n.children));
  }

  lemma {:induction false} TraverseAllFlatten(ns: seq<Node>, v: Visit)
    ensures FlattenAll(TraverseAll(ns, v)) == VisitedAll(v, FlattenAll(ns))
    decreases ns
  {
    if ns != [] {
      var ts := TraverseAll(ns, v);
      assert ts[0] == Traverse(ns[0], v);
      assert ts[1..] == TraverseAll(ns[1..], v);
      TraverseFlatten(ns[0], v);
      TraverseAllFlatten(ns[1..], v);
      VisitedAllAppend(v, Flatten(ns[0]), FlattenAll(ns[1..]));
    }
  }

  /** A traversal changes materials only: names, kinds and the tree's
      structure are kept. */
  lemma {:induction false} TraverseKeepsShape(n: Node, v: Visit)
    ensures SameShape(Traverse(n, v), n)
    decreases n
  {
    TraverseAllKeepsShape(n.children, v);
  }

  lemma {:induction false} TraverseAllKeepsShape(ns: seq<Node>, v: Visit)
    ensures SameShapeAll(TraverseAll(ns, v), ns)
    decreases ns
  {
    if ns != [] {
      var ts := TraverseAll(ns, v);
      assert ts[1..] == TraverseAll(ns[1..], v);
      TraverseKeepsShape(ns[0], v);
      TraverseAllKeepsShape(ns[1..], v);
    }
  }

  /** The `partFound` flag is set exactly when some node of the tree is hit. */
  lemma {:induction false} AnyHitIff(n: Node, v: Visit)
    ensures AnyHit(n, v) <==> exists p :: p in Flatten(n) && Hits(v, p)
    decreases n
  {
    AnyHitAllIff(n.children, v);
    assert Flatten(n)[0] == PartOf(n);
  }

  lemma {:induction false} AnyHitAllIff(ns: seq<Node>, v: Visit)
    ensures AnyHitAll(ns, v) <==> exists p :: p in FlattenAll(ns) && Hits(v, p)
    decreases ns
  {
    if ns != [] {
      AnyHitIff(ns[0], v);
      AnyHitAllIff(ns[1..], v);
      assert FlattenAll(ns) == Flatten(ns[0]) + FlattenAll(ns[1..]);
    }
  }

  lemma VisitedIdempotent(v: Visit, p: Part)
    ensures Visited(v, Visited(v, p)) == Visited(v, p)
  {
    if Hits(v, p) {
      var ms := p.material;
      var once := Rewrite(v, ms);
      match ms
      case NoMaterial =>
      case Single(m) =>
      case Multi(all) =>
        assert Rewrite(v, once).all == once.all;
    }
  }

  /** Running the same callback twice leaves the tree as running it once:
      recolouring a part with the colour it already has, or setting the
      wireframe flag it already has, changes nothing. */
  lemma {:induction false} TraverseIdempotent(n: Node, v: Visit)
    ensures Traverse(Traverse(n, v), v) == Traverse(n, v)
    decreases n
  {
    VisitedIdempotent(v, PartOf(n));
    TraverseAllIdempotent(n.children, v);
  }

  lemma {:induction false} TraverseAllIdempotent(ns: seq<Node>, v: Visit)
    ensures TraverseAll(TraverseAll(ns, v), v) == TraverseAll(ns, v)
    decreases ns
  {
    forall j | 0 <= j < |ns|
      ensures TraverseAll(TraverseAll(ns, v), v)[j] == TraverseAll(ns, v)[j]
    {
      TraverseIdempotent(ns[j], v);
    }
  }

  /** `updateModelPartColor` on one node: the i-th node visited keeps its
      name and kind, and each of its materials takes the new colour exactly
      when the node is a mesh whose name contains the part name and the
      material has a colour channel; every other material is unchanged. */
  lemma RecolorEffect(n: Node, partName: string, c: Colour, i: nat)
    requires i < |Flatten(n)|
    ensures |Flatten(Traverse(n, Recolor(partName, c)))| == |Flatten(n)|
    ensures var p, q := Flatten(n)[i], Flatten(Traverse(n, Recolor(partName, c)))[i];
      && q.name == p.name && q.isMesh == p.isMesh
      && |MaterialList(q.material)| == |MaterialList(p.material)|
      && forall j :: 0 <= j < |MaterialList(p.material)| ==>
           MaterialList(q.material)[j] ==
             var m := MaterialList(p.material)[j];
             if p.isMesh && Contains(p.name, partName) && m.color.Some? then m.(color := Some(c)) else m
  {
    TraverseFlatten(n, Recolor(partName, c));
  }

  /** `updateWireframeVisibility` on one node: every material of every mesh
      is given the flag, and nothing else changes. */
  lemma WireframeEffect(n: Node, visible: bool, i: nat)
    requires i < |Flatten(n)|
    ensures |Flatten(Traverse(n, Wireframe(visible)))| == |Flatten(n)|
    ensures var p, q := Flatten(n)[i], Flatten(Traverse(n, Wireframe(visible)))[i];
      && q.name == p.name && q.isMesh == p.isMesh
      && |MaterialList(q.material)| == |MaterialList(p.material)|
      && forall j :: 0 <= j < |MaterialList(p.material)| ==>
           MaterialList(q.material)[j] ==
             var m := MaterialList(p.material)[j];
             if p.isMesh then m.(wireframe := visible) else m
  {
    TraverseFlatten(n, Wireframe(visible));
  }

  /** The `forEach` over a node's materials (or the single assignment when
      it has one). */
  method RewriteMaterials(v: Visit, ms: Materials) returns (r: Materials)
    ensures r == Rewrite(v, ms)
  {
    match ms
    case NoMaterial =>
      r := NoMaterial;
    case Single(m) =>
      r := Single(SetMaterial(v, m));
    case Multi(all) =>
      var out: seq<Material> := [];
      var i := 0;
      while i < |all|
        invariant 0 <= i <= |all|
        invariant |out| == i
        invariant forall j :: 0 <= j < i ==> out[j] == SetMaterial(v, all[j])
      {
        out := out + [SetMaterial(v, all[i])];
        i := i + 1;
      }
      r := Multi(out);
  }

  /** `traverse` with a callback: the rewritten tree and whether the
      callback hit any node (the `partFound` flag). */
  method TraverseNode(n: Node, v: Visit) returns (r: Node, hit: bool)
    ensures r == Traverse(n, v)
    ensures hit == AnyHit(n, v)
    decreases n
  {
    var material := n.material;
    hit := false;
    if Hits(v, PartOf(n)) {
      hit := true;
      material := RewriteMaterials(v, n.material);
    }
    var kids, kidHit := TraverseChildren(n.children, v);
    hit := hit || kidHit;
    r := Node(n.name, n.isMesh, material, kids);
  }

  /** Traversing one more child extends the traversed prefix by that
      child's traversal. */
  lemma TraverseAllSnoc(ns: seq<Node>, v: Visit, i: nat)
    requires i < |ns|
    ensures TraverseAll(ns[..i + 1], v) == TraverseAll(ns[..i], v) + [Traverse(ns[i], v)]
  {
    var longer, shorter := TraverseAll(ns[..i + 1], v), TraverseAll(ns[..i], v) + [Traverse(ns[i], v)];
    forall j | 0 <= j < i + 1
      ensures longer[j] == shorter[j]
    {
      assert ns[..i + 1][j] == ns[j];
      if j < i {
        assert ns[..i][j] == ns[j];
      }
    }
  }

  /** One more child hits exactly when the prefix or that child does. */
  lemma AnyHitAllSnoc(ns: seq<Node>, v: Visit, i: nat)
    requires i < |ns|
    ensures AnyHitAll(ns[..i + 1], v) == (AnyHitAll(ns[..i], v) || AnyHit(ns[i], v))
  {
    var longer, shorter := ns[..i + 1], ns[..i];
    assert forall j :: 0 <= j < i ==> shorter[j] == longer[j];
    assert longer[i] == ns[i];
  }

  /** The children's subtrees, one after the other. */
  method TraverseChildren(ns: seq<Node>, v: Visit) returns (rs: seq<Node>, hit: bool)
    ensures rs == TraverseAll(ns, v)
    ensures hit == AnyHitAll(ns, v)
    decreases ns
  {
    rs, hit := [], false;
    var i := 0;
    while i < |ns|
      invariant 0 <= i <= |ns|
      invariant rs == TraverseAll(ns[..i], v)
      invariant hit == AnyHitAll(ns[..i], v)
    {
      var r, h := TraverseNode(ns[i], v);
      TraverseAllSnoc(ns, v, i);
      AnyHitAllSnoc(ns, v, i);
      rs, hit := rs + [r], hit || h;
      i := i + 1;
    }
    assert ns[..i] == ns;
  }
}
