/** Marker derivation of a Floor: one pass of `scene.traverse` that, for every
    mesh met, draws a random colour, gives the mesh a fresh solid material of
    that colour and records a marker at the mesh's bounding-box centre, with a
    running mesh index. */
module Markers {
  import opened Geometry
  import opened Scene

  /** One point of interest (`CircleData`). */
  datatype Marker = Marker(position: Vec3, meshIndex: nat, colour: CssRgb)

  /** Result of traversing one subtree: the markers pushed, and the subtree
      with its mesh materials replaced. */
  datatype NodePass = NodePass(markers: seq<Marker>, node: Node)

  datatype ForestPass = ForestPass(markers: seq<Marker>, nodes: seq<Node>)

  /** `draw(k)` is the colour the three `Math.random()` calls produce for the
      k-th mesh of the traversal; randomness is an input of the model. */
  type Draw = nat -> Colour

  /** Visits `n` and its descendants, `next` being the number of meshes met
      before `n`. */
  function VisitNode(n: Node, next: nat, draw: Draw): (r: NodePass)
    decreases n, 1
    ensures |r.markers| == |Meshes(n)|
    ensures forall k :: 0 <= k < |r.markers| ==> r.markers[k].meshIndex == next + k
  {
    if n.kind.Mesh? then
      var c := draw(next);
      var rest := VisitForest(n.children, next + 1, draw);
      NodePass([Marker(n.kind.centre, next, ToCss(c))] + rest.markers,
               Node(n.id, Mesh(Solid(c), n.kind.centre), rest.nodes))
    else
      var rest := VisitForest(n.children, next, draw);
      NodePass(rest.markers, Node(n.id, n.kind, rest.nodes))
  }

  function VisitForest(ns: seq<Node>, next: nat, draw: Draw): (r: ForestPass)
    decreases ns, 0
    ensures |r.markers| == |MeshesOf(ns)|
    ensures |r.nodes| == |ns|
    ensures forall k :: 0 <= k < |r.markers| ==> r.markers[k].meshIndex == next + k
  {
    if ns == [] then ForestPass([], [])
    else
      var first := VisitNode(ns[0], next, draw);
      var rest := VisitForest(ns[1..], next + |first.markers|, draw);
      ForestPass(first.markers + rest.markers, [first.node] + rest.nodes)
  }

  /** The derivation run on a scene root: the mesh index starts at 0. */
  function Derive(scene: Node, draw: Draw): (r: NodePass)
    ensures |r.markers| == |Meshes(scene)|
    ensures forall k :: 0 <= k < |r.markers| ==> r.markers[k].meshIndex == k
  {
    VisitNode(scene, 0, draw)
  }

  /** `ms` is exactly one marker per mesh of `meshes`, in order: at the mesh's
      centre, numbered from `next`, coloured with that number's draw. */
  predicate Describes(ms: seq<Marker>, meshes: seq<Node>, next: nat, draw: Draw)
  {
    && |ms| == |meshes|
    && forall k :: 0 <= k < |ms| ==>
         && meshes[k].kind.Mesh?
         && ms[k] == Marker(meshes[k].kind.centre, next + k, ToCss(draw(next + k)))
  }

  /** `after` is `before` with the k-th mesh's material replaced by a solid
      material of colour `draw(next + k)`; identity and centre are kept. */
  predicate Recoloured(after: seq<Node>, before: seq<Node>, next: nat, draw: Draw)
  {
    && |after| == |before|
    && forall k :: 0 <= k < |after| ==>
         && before[k].kind.Mesh?
         && after[k].id == before[k].id
         && after[k].kind == Mesh(Solid(draw(next + k)), before[k].kind.centre)
  }

  lemma DescribesConcat(a: seq<Marker>, ma: seq<Node>, b: seq<Marker>, mb: seq<Node>, next: nat, draw: Draw)
    requires Describes(a, ma, next, draw)
    requires Describes(b, mb, next + |a|, draw)
    ensures Describes(a + b, ma + mb, next, draw)
  {
  }

  lemma RecolouredConcat(a: seq<Node>, ma: seq<Node>, b: seq<Node>, mb: seq<Node>, next: nat, draw: Draw)
    requires Recoloured(a, ma, next, draw)
    requires Recoloured(b, mb, next + |a|, draw)
    ensures Recoloured(a + b, ma + mb, next, draw)
  {
  }

  /** The traversal yields exactly one marker per mesh of the subtree, in
      traversal order, and replaces exactly those meshes' materials. */
  lemma {:induction false} VisitNodeCorrect(n: Node, next: nat, draw: Draw)
    decreases n, 1
    ensures Describes(VisitNode(n, next, draw).markers, Meshes(n), next, draw)
    ensures Recoloured(Meshes(VisitNode(n, next, draw).node), Meshes(n), next, draw)
  {
    var r := VisitNode(n, next, draw);
    if n.kind.Mesh? {
      var c := draw(next);
      var rest := VisitForest(n.children, next + 1, draw);
      VisitForestCorrect(n.children, next + 1, draw);
      var own := [Marker(n.kind.centre, next, ToCss(c))];
      assert Describes(own, [n], next, draw);
      DescribesConcat(own, [n], rest.markers, MeshesOf(n.children), next, draw);
      var m := Node(n.id, Mesh(Solid(c), n.kind.centre), rest.nodes);
      assert r.node == m;
      assert Meshes(m) == [m] + MeshesOf(rest.nodes);
      assert Recoloured([m], [n], next, draw);
      RecolouredConcat([m], [n], MeshesOf(rest.nodes), MeshesOf(n.children), next, draw);
    } else {
      VisitForestCorrect(n.children, next, draw);
      var rest := VisitForest(n.children, next, draw);
      assert r.node == Node(n.id, n.kind, rest.nodes);
      assert Meshes(r.node) == MeshesOf(rest.nodes);
      assert Meshes(n) == MeshesOf(n.children);
    }
  }

  lemma {:induction false} VisitForestCorrect(ns: seq<Node>, next: nat, draw: Draw)
    decreases ns, 0
    ensures Describes(VisitForest(ns, next, draw).markers, MeshesOf(ns), next, draw)
    ensures Recoloured(MeshesOf(VisitForest(ns, next, draw).nodes), MeshesOf(ns), next, draw)
  {
    if ns != [] {
      var first := VisitNode(ns[0], next, draw);
      var rest := VisitForest(ns[1..], next + |first.markers|, draw);
      VisitNodeCorrect(ns[0], next, draw);
      VisitForestCorrect(ns[1..], next + |first.markers|, draw);
      DescribesConcat(first.markers, Meshes(ns[0]), rest.markers, MeshesOf(ns[1..]), next, draw);
      assert VisitForest(ns, next, draw).nodes == [first.node] + rest.nodes;
      MeshesOfCons(first.node, rest.nodes);
      RecolouredConcat(Meshes(first.node), Meshes(ns[0]), MeshesOf(rest.nodes), MeshesOf(ns[1..]), next, draw);
    }
  }

  /** The traversal only swaps materials: no node is dropped, added, moved
      or re-identified, and no centre changes. */
  lemma {:induction false} VisitNodeKeepsShape(n: Node, next: nat, draw: Draw)
    decreases n, 1
    ensures ShapeOf(VisitNode(n, next, draw).node) == ShapeOf(n)
  {
    if n.kind.Mesh? {
      VisitForestKeepsShape(n.children, next + 1, draw);
    } else {
      VisitForestKeepsShape(n.children, next, draw);
    }
  }

  lemma {:induction false} VisitForestKeepsShape(ns: seq<Node>, next: nat, draw: Draw)
    decreases ns, 0
    ensures ShapesOf(VisitForest(ns, next, draw).nodes) == ShapesOf(ns)
  {
    if ns != [] {
      var first := VisitNode(ns[0], next, draw);
      var rest := VisitForest(ns[1..], next + |first.markers|, draw);
      VisitNodeKeepsShape(ns[0], next, draw);
      VisitForestKeepsShape(ns[1..], next + |first.markers|, draw);
      var nodes := [first.node] + rest.nodes;
      assert VisitForest(ns, next, draw).nodes == nodes;
      assert nodes[0] == first.node && nodes[1..] == rest.nodes;
    }
  }

  /** The repainted scene draws the same direct mesh children as before. */
  lemma DeriveKeepsRenderedMeshes(scene: Node, draw: Draw)
    ensures var after := Derive(scene, draw).node;
      && |MeshChildren(after.children)| == |MeshChildren(scene.children)|
      && forall j :: 0 <= j < |MeshChildren(after.children)| ==>
           MeshChildren(after.children)[j].id == MeshChildren(scene.children)[j].id
  {
    VisitNodeKeepsShape(scene, 0, draw);
    SameShapeSameMeshChildren(Derive(scene, draw).node.children, scene.children);
  }

  /** On a whole scene: marker k sits at the centre of the k-th mesh the
      traversal meets, carries mesh index k, and its colour is the colour of
      the solid material that mesh now has. */
  lemma DeriveCorrect(scene: Node, draw: Draw)
    ensures var r := Derive(scene, draw);
      && |r.markers| == |Meshes(scene)| == |Meshes(r.node)|
      && forall k :: 0 <= k < |r.markers| ==>
           && r.markers[k].position == Meshes(scene)[k].kind.centre
           && r.markers[k].meshIndex == k
           && Meshes(r.node)[k].id == Meshes(scene)[k].id
           && Meshes(r.node)[k].kind.centre == Meshes(scene)[k].kind.centre
           && Meshes(r.node)[k].kind.material == Solid(draw(k))
           && r.markers[k].colour == ToCss(Meshes(r.node)[k].kind.material.colour)
    ensures ShapeOf(Derive(scene, draw).node) == ShapeOf(scene)
  {
    VisitNodeCorrect(scene, 0, draw);
    VisitNodeKeepsShape(scene, 0, draw);
  }

  /** Running the derivation again on the scene it produced, with the same
      draws, yields the same markers and leaves the scene as it is. */
  lemma {:induction false} RevisitNodeStable(n: Node, next: nat, draw: Draw)
    decreases n, 1
    ensures VisitNode(VisitNode(n, next, draw).node, next, draw) == VisitNode(n, next, draw)
  {
    var r := VisitNode(n, next, draw);
    if n.kind.Mesh? {
      var rest := VisitForest(n.children, next + 1, draw);
      RevisitForestStable(n.children, next + 1, draw);
      assert r.node.children == rest.nodes;
    } else {
      var rest := VisitForest(n.children, next, draw);
      RevisitForestStable(n.children, next, draw);
      assert r.node.children == rest.nodes;
    }
  }

  /** Visiting a list whose head is `n` is visiting `n`, then the tail. */
  lemma VisitCons(n: Node, ns: seq<Node>, next: nat, draw: Draw)
    ensures var first := VisitNode(n, next, draw);
      var rest := VisitForest(ns, next + |first.markers|, draw);
      VisitForest([n] + ns, next, draw) == ForestPass(first.markers + rest.markers, [first.node] + rest.nodes)
  {
  }

  lemma {:induction false} RevisitForestStable(ns: seq<Node>, next: nat, draw: Draw)
    decreases ns, 0
    ensures VisitForest(VisitForest(ns, next, draw).nodes, next, draw) == VisitForest(ns, next, draw)
  {
    if ns != [] {
      var first := VisitNode(ns[0], next, draw);
      var after := next + |first.markers|;
      RevisitNodeStable(ns[0], next, draw);
      RevisitForestStable(ns[1..], after, draw);
      VisitCons(first.node, VisitForest(ns[1..], after, draw).nodes, next, draw);
    }
  }

  /** Markers depend only on the scene's shape and centres, never on the
      materials: re-deriving with other draws moves no marker. */
  lemma {:induction false} PositionsIgnoreMaterials(n: Node, next: nat, d1: Draw, d2: Draw)
    decreases n, 1
    ensures |Meshes(VisitNode(n, next, d1).node)| == |Meshes(n)|
    ensures var a := VisitNode(n, next, d1).markers; var b := VisitNode(n, next, d2).markers;
      |a| == |b| && forall k :: 0 <= k < |a| ==> a[k].position == b[k].position && a[k].meshIndex == b[k].meshIndex
  {
    VisitNodeCorrect(n, next, d1);
    VisitNodeCorrect(n, next, d2);
  }
}
