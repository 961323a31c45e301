/** The Floor component: its opacity target, the meshes it draws, and how
    its `active` flag gates the rotating cube, the markers and the hover
    handlers. */
module FloorView {
  import opened Scene
  import opened Markers
  import Hover

  /** A JavaScript number as far as the opacity computation can produce one:
      a finite value or +Infinity (what `0.1 / 0` evaluates to). */
  datatype JsNumber = Finite(value: real) | PosInfinity

  function Abs(d: int): nat
  {
    if d < 0 then -d else d
  }

  /** `opacityLevel = 0.1 / Math.abs(index)`, `index` being the floor's
      depth from the active floor. Depth 0 is not guarded against. */
  function OpacityLevel(depth: int): (o: JsNumber)
    ensures o.PosInfinity? <==> depth == 0
    ensures o.Finite? ==> 0.0 < o.value <= 0.1 && o.value * (Abs(depth) as real) == 0.1
  {
    if depth == 0 then PosInfinity else Finite(0.1 / (Abs(depth) as real))
  }

  /** The opacity a floor fades towards (line 42), which is also the opacity
      it mounts with (line 34): fully opaque when active. */
  function TargetOpacity(active: bool, depth: int): (o: JsNumber)
    ensures o == Finite(1.0) <==> active
    ensures o.PosInfinity? <==> !active && depth == 0
    ensures o.Finite? ==> 0.0 < o.value <= 1.0
    ensures !active && depth != 0 ==> o.value <= 0.1 && o.value * (Abs(depth) as real) == 0.1
  {
    if active then Finite(1.0) else OpacityLevel(depth)
  }

  /** Floors further from the active one are fainter. */
  lemma FartherIsFainter(d1: int, d2: int)
    requires 0 < Abs(d1) <= Abs(d2)
    ensures OpacityLevel(d2).value <= OpacityLevel(d1).value
  {
    var a, b := Abs(d1) as real, Abs(d2) as real;
    var x, y := OpacityLevel(d1).value, OpacityLevel(d2).value;
    assert x * a == 0.1 && y * b == 0.1;
    assert x * b - x * a == x * (b - a) >= 0.0;
    if y > x {
      assert false;
    }
  }

  /** One `<mesh>` the floor draws: the scene mesh it copies, the material
      whose colour it copies, its opacity, and whether the hover handlers are
      attached. */
  datatype RenderedMesh = RenderedMesh(node: NodeId, colourOf: Material, opacity: JsNumber, interactive: bool)

  /** `scene.children.map(...)`: a `<mesh>` per direct child that is a mesh,
      in order; other children draw nothing, and grandchildren are never
      looked at. */
  function RenderChildren(ns: seq<Node>, opacity: JsNumber, active: bool): (r: seq<RenderedMesh>)
    ensures |r| == |MeshChildren(ns)|
    ensures forall j :: 0 <= j < |r| ==>
      r[j] == RenderedMesh(MeshChildren(ns)[j].id, MeshChildren(ns)[j].kind.material, opacity, active)
  {
    if ns == [] then []
    else
      var rest := RenderChildren(ns[1..], opacity, active);
      if ns[0].kind.Mesh? then
        [RenderedMesh(ns[0].id, ns[0].kind.material, opacity, active)] + rest
      else
        rest
  }

  /** What a Floor puts on screen. */
  datatype View = View(cube: bool, meshes: seq<RenderedMesh>, overlays: seq<Marker>)

  /** The Floor's JSX for the current `opacity` state and derived markers. */
  function Render(active: bool, scene: Node, markers: seq<Marker>, opacity: JsNumber): (v: View)
    ensures v.cube == active
    ensures v.overlays == (if active then markers else [])
    ensures |v.meshes| == |MeshChildren(scene.children)| <= |Meshes(scene)|
    ensures forall j :: 0 <= j < |v.meshes| ==> v.meshes[j].interactive == active
  {
    MeshChildrenAreTraversed(scene.children);
    View(active, RenderChildren(scene.children, opacity, active), if active then markers else [])
  }

  /** Pointer events reach the handlers only on an active floor
      (`onPointerOver={active && handlePointerOver}`). */
  function PointerEvent(active: bool, s: Hover.HoverState, e: Hover.Event): (r: Hover.HoverState)
    requires e.mesh in s.materials
    ensures !active ==> r == s
    ensures active ==> r == Hover.Step(s, e)
  {
    if active then Hover.Step(s, e) else s
  }

  /** An inactive floor is inert: no cube, no markers, no hover reaction. */
  lemma InactiveFloorInert(scene: Node, markers: seq<Marker>, opacity: JsNumber, s: Hover.HoverState, e: Hover.Event)
    requires e.mesh in s.materials
    ensures var v := Render(false, scene, markers, opacity);
      && !v.cube && v.overlays == []
      && (forall j :: 0 <= j < |v.meshes| ==> !v.meshes[j].interactive)
      && PointerEvent(false, s, e) == s
  {
  }
}
