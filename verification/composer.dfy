/** Map3D, the scene composer: three Floors stacked around the active one,
    all showing the same cached scene, a floor selector driving the active
    index, and marker clicks driving the camera target. */
module Composer {
  import opened Geometry
  import opened Scene
  import opened Markers
  import opened FloorView
  import FloorSelect

  /** Map3D mounts three floors and gives the selector `levels={3}`. */
  const FloorLevels := 3

  /** The props one `<Floor>` receives: `active`, `index` (its depth from the
      active floor) and `position`. `level` is which of the three it is. */
  datatype FloorProps = FloorProps(level: nat, active: bool, depth: int, position: Vec3)

  function PropsFor(level: nat, activeIndex: int): (p: FloorProps)
    ensures p.level == level && p.depth == level - activeIndex
    ensures p.position == Vec3(0.0, p.depth as real, 0.0)
    ensures p.active <==> p.depth == 0
  {
    FloorProps(level, activeIndex == level, level - activeIndex, Vec3(0.0, (level - activeIndex) as real, 0.0))
  }

  /** The floors in the order the JSX lists them: level 2, 1, then 0. */
  function Layout(activeIndex: int): (fs: seq<FloorProps>)
    ensures |fs| == FloorLevels
    ensures forall i :: 0 <= i < |fs| ==> fs[i].level == FloorLevels - 1 - i
  {
    [PropsFor(2, activeIndex), PropsFor(1, activeIndex), PropsFor(0, activeIndex)]
  }

  function ActiveLevels(fs: seq<FloorProps>): set<nat>
  {
    set i | 0 <= i < |fs| && fs[i].active :: fs[i].level
  }

  /** Exactly the floor at `activeIndex` is active when it names a floor, and
      none otherwise; every floor's vertical offset equals its depth, so the
      active floor sits at the origin. */
  lemma OneActiveFloor(activeIndex: int)
    ensures ActiveLevels(Layout(activeIndex))
         == if 0 <= activeIndex < FloorLevels then {activeIndex as nat} else {}
    ensures forall i :: 0 <= i < FloorLevels ==> Layout(activeIndex)[i].position.y == Layout(activeIndex)[i].depth as real
    ensures forall i :: 0 <= i < FloorLevels && Layout(activeIndex)[i].active ==> Layout(activeIndex)[i].position == Origin
  {
    var fs := Layout(activeIndex);
    if 0 <= activeIndex < FloorLevels {
      assert fs[FloorLevels - 1 - activeIndex].active;
    }
  }

  /** No composed floor ever selects the `0.1 / 0` value: every target opacity
      is a finite number in (0, 1], and in (0, 0.1] for inactive floors. */
  lemma LayoutOpacitiesFinite(activeIndex: int)
    ensures forall i :: 0 <= i < FloorLevels ==>
      var p := Layout(activeIndex)[i];
      var o := TargetOpacity(p.active, p.depth);
      && o.Finite? && 0.0 < o.value <= 1.0
      && (!p.active ==> o.value <= 0.1)
  {
  }

  /** With the ground floor selected the floors (level 2, 1, 0) sit at heights
      2, 1, 0 and fade to 0.05, 0.1 and 1; with the top floor selected they
      sit at 0, -1, -2 and the top floor is the active one. */
  lemma StackingScenarios()
    ensures var fs := Layout(0);
      && [fs[0].position.y, fs[1].position.y, fs[2].position.y] == [2.0, 1.0, 0.0]
      && [TargetOpacity(fs[0].active, fs[0].depth), TargetOpacity(fs[1].active, fs[1].depth), TargetOpacity(fs[2].active, fs[2].depth)]
         == [Finite(0.05), Finite(0.1), Finite(1.0)]
    ensures var fs := Layout(2);
      && [fs[0].position.y, fs[1].position.y, fs[2].position.y] == [0.0, -1.0, -2.0]
      && fs[0].active && !fs[1].active && !fs[2].active
  {
  }

  /** Only the active floor shows the rotating cube and the markers and
      accepts hover; the others draw their meshes only. */
  lemma GatingFollowsSelection(activeIndex: int, scene: Node, markers: seq<Marker>, opacity: JsNumber)
    ensures forall i :: 0 <= i < FloorLevels ==>
      var p := Layout(activeIndex)[i];
      var v := FloorView.Render(p.active, scene, markers, opacity);
      && (v.cube <==> p.level == activeIndex)
      && v.overlays == (if p.level == activeIndex then markers else [])
      && (forall j :: 0 <= j < |v.meshes| ==> (v.meshes[j].interactive <==> p.level == activeIndex))
  {
    forall i | 0 <= i < FloorLevels
      ensures var p := Layout(activeIndex)[i];
        var v := FloorView.Render(p.active, scene, markers, opacity);
        && (v.cube <==> p.level == activeIndex)
        && v.overlays == (if p.level == activeIndex then markers else [])
        && (forall j :: 0 <= j < |v.meshes| ==> (v.meshes[j].interactive <==> p.level == activeIndex))
    {
      var p := Layout(activeIndex)[i];
      assert p == PropsFor(FloorLevels - 1 - i, activeIndex);
      assert p.active <==> p.level == activeIndex;
    }
  }

  /** The Map3D state: `activeIndex`, `cameraTarget` and the
      `isCameraAnimating` flag. */
  datatype Map3DState = Map3DState(activeIndex: int, cameraTarget: Vec3, cameraAnimating: bool)

  const Initial := Map3DState(0, Origin, false)

  /** `moveCameraTo`: raise the animating flag and set the new target. */
  function MoveCameraTo(s: Map3DState, target: Vec3): (r: Map3DState)
    ensures r.cameraTarget == target && r.cameraAnimating
    ensures r.activeIndex == s.activeIndex
  {
    s.(cameraTarget := target, cameraAnimating := true)
  }

  /** Clicking marker `k` of a floor's view: markers exist only on the active
      floor, so there is something to click only there. */
  function ClickMarker(s: Map3DState, v: View, k: nat): (r: Map3DState)
    requires k < |v.overlays|
    ensures r.cameraTarget == v.overlays[k].position && r.cameraAnimating
    ensures r.activeIndex == s.activeIndex
  {
    MoveCameraTo(s, v.overlays[k].position)
  }

  /** Clicking the k-th marker of the active floor aims the camera at the
      bounding-box centre of the k-th mesh the traversal met. */
  lemma MarkerClickTargetsMesh(s: Map3DState, scene: Node, draw: Draw, opacity: JsNumber, k: nat)
    requires k < |Meshes(scene)|
    ensures var v := FloorView.Render(true, scene, Derive(scene, draw).markers, opacity);
      && k < |v.overlays|
      && ClickMarker(s, v, k).cameraTarget == Meshes(scene)[k].kind.centre
      && ClickMarker(s, v, k).cameraAnimating
  {
    DeriveCorrect(scene, draw);
  }

  /** Clicking button `b` of the floor selector: `setActiveIndex` with the
      index the button carries. */
  function PressFloorButton(s: Map3DState, b: nat): (r: Map3DState)
    requires b < FloorLevels
    ensures r.activeIndex == b
    ensures r.cameraTarget == s.cameraTarget && r.cameraAnimating == s.cameraAnimating
  {
    var buttons := FloorSelect.Render(FloorLevels, s.activeIndex).value;
    s.(activeIndex := buttons[b].request)
  }

  /** The selector and the stack agree: button `b` carries the active class
      exactly when floor `b` is the active floor. */
  lemma SelectorMatchesStack(activeIndex: int, b: nat)
    requires b < FloorLevels
    ensures FloorSelect.IsActive(FloorSelect.Render(FloorLevels, activeIndex).value[b])
        <==> b in ActiveLevels(Layout(activeIndex))
  {
    OneActiveFloor(activeIndex);
  }

  datatype Event = Press(button: nat) | MarkerClicked(target: Vec3)

  predicate ValidEvents(es: seq<Event>)
  {
    forall k :: 0 <= k < |es| ==> es[k].Press? ==> es[k].button < FloorLevels
  }

  function Step(s: Map3DState, e: Event): Map3DState
    requires e.Press? ==> e.button < FloorLevels
  {
    match e
    case Press(b) => PressFloorButton(s, b)
    case MarkerClicked(t) => MoveCameraTo(s, t)
  }

  function Replay(s: Map3DState, es: seq<Event>): Map3DState
    requires ValidEvents(es)
    decreases |es|
  {
    if es == [] then s else Replay(Step(s, es[0]), es[1..])
  }

  /** Starting from the ground floor, whatever buttons and markers are
      clicked, the active index stays a floor index, so exactly one floor is
      active at any time. */
  lemma {:induction false} AlwaysOneActiveFloor(s: Map3DState, es: seq<Event>)
    requires 0 <= s.activeIndex < FloorLevels
    requires ValidEvents(es)
    ensures 0 <= Replay(s, es).activeIndex < FloorLevels
    ensures |ActiveLevels(Layout(Replay(s, es).activeIndex))| == 1
    decreases |es|
  {
    if es == [] {
      OneActiveFloor(s.activeIndex);
    } else {
      var t := Step(s, es[0]);
      assert ValidEvents(es[1..]);
      AlwaysOneActiveFloor(t, es[1..]);
    }
  }

  /** The three floors mounting in JSX order over the one cached scene: each
      floor's derivation runs on the scene as the previous floor left it. */
  datatype SharedMount = SharedMount(scene: Node, markers: seq<seq<Marker>>)

  function MountAll(scene: Node, draws: seq<Draw>): (r: SharedMount)
    ensures |r.markers| == |draws|
    decreases |draws|
  {
    if draws == [] then SharedMount(scene, [])
    else
      var p := Derive(scene, draws[0]);
      var rest := MountAll(p.node, draws[1..]);
      SharedMount(rest.scene, [p.markers] + rest.markers)
  }

  /** `a` and `b` have the same meshes in traversal order, up to materials. */
  predicate SameMeshes(a: Node, b: Node)
  {
    && |Meshes(a)| == |Meshes(b)|
    && forall k :: 0 <= k < |Meshes(a)| ==>
         Meshes(a)[k].id == Meshes(b)[k].id && Meshes(a)[k].kind.centre == Meshes(b)[k].kind.centre
  }

  /** After all floors have mounted, the shared scene has the same meshes,
      each wearing the solid colour the last floor drew for it. */
  lemma {:induction false} MountAllScene(scene: Node, draws: seq<Draw>)
    requires |draws| > 0
    ensures var r := MountAll(scene, draws);
      && SameMeshes(r.scene, scene)
      && forall k :: 0 <= k < |Meshes(scene)| ==> Meshes(r.scene)[k].kind.material == Solid(draws[|draws| - 1](k))
    decreases |draws|
  {
    var p := Derive(scene, draws[0]);
    DeriveCorrect(scene, draws[0]);
    assert SameMeshes(p.node, scene);
    if |draws| > 1 {
      MountAllScene(p.node, draws[1..]);
      assert draws[1..][|draws[1..]| - 1] == draws[|draws| - 1];
      assert MountAll(scene, draws).scene == MountAll(p.node, draws[1..]).scene;
    } else {
      assert MountAll(scene, draws).scene == p.node;
    }
  }

  /** Every floor's markers are the scene's meshes in traversal order, at
      their centres, in the colours that floor drew. */
  lemma {:induction false} MountAllMarkers(scene: Node, draws: seq<Draw>)
    ensures var r := MountAll(scene, draws);
      && (forall f :: 0 <= f < |draws| ==> |r.markers[f]| == |Meshes(scene)|)
      && (forall f, k :: 0 <= f < |draws| && 0 <= k < |Meshes(scene)| ==>
            r.markers[f][k].position == Meshes(scene)[k].kind.centre
            && r.markers[f][k].colour == ToCss(draws[f](k)))
    decreases |draws|
  {
    if draws != [] {
      var r := MountAll(scene, draws);
      var p := Derive(scene, draws[0]);
      var rest := MountAll(p.node, draws[1..]);
      DeriveCorrect(scene, draws[0]);
      VisitNodeCorrect(scene, 0, draws[0]);
      assert SameMeshes(p.node, scene);
      MountAllMarkers(p.node, draws[1..]);
      assert forall f :: 0 <= f < |draws[1..]| ==> |MountAll(p.node, draws[1..]).markers[f]| == |Meshes(p.node)|;
      assert r.markers == [p.markers] + rest.markers;
      forall f | 0 <= f < |draws|
        ensures |r.markers[f]| == |Meshes(scene)|
        ensures forall k :: 0 <= k < |Meshes(scene)| ==>
          r.markers[f][k].position == Meshes(scene)[k].kind.centre
          && r.markers[f][k].colour == ToCss(draws[f](k))
      {
        if f > 0 {
          assert r.markers[f] == rest.markers[f - 1] && draws[f] == draws[1..][f - 1];
        }
      }
    }
  }

  /** After all floors have mounted, the shared scene wears the colours of
      the last floor to mount; every floor's markers sit at the scene's mesh
      centres, but a floor's marker matches its mesh's colour only where that
      floor's draw agrees with the last floor's. */
  lemma SharedSceneKeepsLastColours(scene: Node, draws: seq<Draw>)
    requires |draws| > 0
    ensures var r := MountAll(scene, draws);
      && SameMeshes(r.scene, scene)
      && (forall k :: 0 <= k < |Meshes(scene)| ==> Meshes(r.scene)[k].kind.material == Solid(draws[|draws| - 1](k)))
      && (forall f :: 0 <= f < |draws| ==> |r.markers[f]| == |Meshes(scene)|)
      && (forall f, k :: 0 <= f < |draws| && 0 <= k < |Meshes(scene)| ==>
            && r.markers[f][k].position == Meshes(scene)[k].kind.centre
            && (r.markers[f][k].colour == ToCss(Meshes(r.scene)[k].kind.material.colour)
                <==> draws[f](k) == draws[|draws| - 1](k)))
  {
    MountAllScene(scene, draws);
    MountAllMarkers(scene, draws);
    forall f, k | 0 <= f < |draws| && 0 <= k < |Meshes(scene)|
      ensures ToCss(draws[f](k)) == ToCss(draws[|draws| - 1](k)) <==> draws[f](k) == draws[|draws| - 1](k)
    {
      ToCssInjective(draws[f](k), draws[|draws| - 1](k));
    }
  }
}
