/** The loaded GLTF scene as the map sees it: a tree of Object3D nodes, some of
    which are meshes. Geometry is abstracted to the one thing the map reads
    from it, the world-space bounding-box centre of a mesh. */
module Scene {
  import opened Geometry

  /** Object identity of a node (three.js compares meshes by reference). */
  type NodeId = nat

  /** What a mesh is drawn with. */
  datatype Material =
    | Loaded(ref: nat)       // a material as it came out of the asset
    | Solid(colour: Colour)  // `new MeshStandardMaterial({ color })`
    | Highlight              // a floor's shared hot-pink hover material

  /** A node is a mesh (with its material and bounding-box centre) or any
      other Object3D (group, light, ...). */
  datatype Kind = Mesh(material: Material, centre: Vec3) | Other

  datatype Node = Node(id: NodeId, kind: Kind, children: seq<Node>)

  /** The meshes of a subtree in the order `Object3D.traverse` visits them:
      the node itself first, then each child's subtree in order. */
  function Meshes(n: Node): (r: seq<Node>)
    decreases n, 1
    ensures forall k :: 0 <= k < |r| ==> r[k].kind.Mesh?
  {
    (if n.kind.Mesh? then [n] else []) + MeshesOf(n.children)
  }

  function MeshesOf(ns: seq<Node>): (r: seq<Node>)
    decreases ns, 0
    ensures forall k :: 0 <= k < |r| ==> r[k].kind.Mesh?
  {
    if ns == [] then [] else Meshes(ns[0]) + MeshesOf(ns[1..])
  }

  /** The meshes of a list whose head is `n` are those of `n`, then the tail's. */
  lemma MeshesOfCons(n: Node, ns: seq<Node>)
    ensures MeshesOf([n] + ns) == Meshes(n) + MeshesOf(ns)
  {
  }

  /** A node with its materials erased: identity, whether it is a mesh (and
      its centre), and the shapes of its children. */
  datatype ShapeKind = MeshShape(centre: Vec3) | OtherShape

  datatype Shape = Shape(id: NodeId, kind: ShapeKind, children: seq<Shape>)

  function ShapeOf(n: Node): (r: Shape)
    decreases n, 1
    ensures r.id == n.id && (r.kind.MeshShape? <==> n.kind.Mesh?)
    ensures |r.children| == |n.children|
  {
    Shape(n.id,
          if n.kind.Mesh? then MeshShape(n.kind.centre) else OtherShape,
          ShapesOf(n.children))
  }

  function ShapesOf(ns: seq<Node>): (r: seq<Shape>)
    decreases ns, 0
    ensures |r| == |ns|
  {
    if ns == [] then [] else [ShapeOf(ns[0])] + ShapesOf(ns[1..])
  }

  /** Lists of the same shape have the same direct mesh children, identity
      for identity. */
  lemma {:induction false} SameShapeSameMeshChildren(a: seq<Node>, b: seq<Node>)
    requires ShapesOf(a) == ShapesOf(b)
    ensures |MeshChildren(a)| == |MeshChildren(b)|
    ensures forall j :: 0 <= j < |MeshChildren(a)| ==> MeshChildren(a)[j].id == MeshChildren(b)[j].id
    decreases |a|
  {
    if a != [] {
      assert ShapesOf(a)[0] == ShapeOf(a[0]) && ShapesOf(b)[0] == ShapeOf(b[0]);
      assert ShapesOf(a)[1..] == ShapesOf(a[1..]) && ShapesOf(b)[1..] == ShapesOf(b[1..]);
      SameShapeSameMeshChildren(a[1..], b[1..]);
      var d := if a[0].kind.Mesh? then 1 else 0;
      assert MeshChildren(a) == (if a[0].kind.Mesh? then [a[0]] else []) + MeshChildren(a[1..]);
      assert MeshChildren(b) == (if b[0].kind.Mesh? then [b[0]] else []) + MeshChildren(b[1..]);
      forall j | d <= j < |MeshChildren(a)|
        ensures MeshChildren(a)[j].id == MeshChildren(b)[j].id
      {
        assert MeshChildren(a)[j] == MeshChildren(a[1..])[j - d];
        assert MeshChildren(b)[j] == MeshChildren(b[1..])[j - d];
      }
    }
  }

  /** The direct children that are meshes, in order (no descent). */
  function MeshChildren(ns: seq<Node>): (r: seq<Node>)
    ensures forall k :: 0 <= k < |r| ==> r[k].kind.Mesh?
    ensures |r| <= |ns|
  {
    if ns == [] then []
    else (if ns[0].kind.Mesh? then [ns[0]] else []) + MeshChildren(ns[1..])
  }

  /** The direct mesh children are exactly the children that are meshes. */
  lemma {:induction false} MeshChildrenExactly(ns: seq<Node>)
    ensures forall x :: x in MeshChildren(ns) <==> x in ns && x.kind.Mesh?
  {
    if ns != [] {
      MeshChildrenExactly(ns[1..]);
      assert ns == [ns[0]] + ns[1..];
    }
  }

  /** A mesh among the direct children is also met by the full traversal,
      so there are never more mesh children than meshes in the subtree. */
  lemma {:induction false} MeshChildrenAreTraversed(ns: seq<Node>)
    ensures forall k :: 0 <= k < |MeshChildren(ns)| ==> MeshChildren(ns)[k] in MeshesOf(ns)
    ensures |MeshChildren(ns)| <= |MeshesOf(ns)|
  {
    if ns != [] {
      MeshChildrenAreTraversed(ns[1..]);
      var own := if ns[0].kind.Mesh? then [ns[0]] else [];
      assert MeshChildren(ns) == own + MeshChildren(ns[1..]);
      assert MeshesOf(ns) == Meshes(ns[0]) + MeshesOf(ns[1..]);
      assert Meshes(ns[0]) == own + MeshesOf(ns[0].children);
      forall k | 0 <= k < |MeshChildren(ns)|
        ensures MeshChildren(ns)[k] in MeshesOf(ns)
      {
        if k < |own| {
          assert MeshChildren(ns)[k] == Meshes(ns[0])[0];
        } else {
          assert MeshChildren(ns)[k] == MeshChildren(ns[1..])[k - |own|];
        }
      }
    }
  }
}
