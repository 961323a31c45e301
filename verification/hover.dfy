/** Hover highlighting of a Floor: the `originalMaterials` map from mesh to the
    material it had before the pointer came over it, together with the meshes'
    current materials, driven by pointer-over and pointer-out events. */
module Hover {
  import opened Scene

  /** `materials` is every mesh's current material; `saved` is the
      `originalMaterials` map. */
  datatype HoverState = HoverState(materials: map<NodeId, Material>, saved: map<NodeId, Material>)

  /** Nothing but mesh `m`'s material and saved entry differs between `s` and `r`. */
  predicate OnlyTouches(s: HoverState, r: HoverState, m: NodeId)
  {
    && r.materials - {m} == s.materials - {m}
    && r.saved - {m} == s.saved - {m}
  }

  /** The hover invariant: a mesh wears the hover material exactly when an
      entry for it is saved, and a saved entry is never the hover material. */
  predicate Valid(s: HoverState)
  {
    && s.saved.Keys <= s.materials.Keys
    && (forall m :: m in s.materials ==> (s.materials[m] == Highlight <==> m in s.saved))
    && (forall m :: m in s.saved ==> s.saved[m] != Highlight)
  }

  /** A floor's state when mounted: nothing saved, and no mesh wears the
      floor's freshly created hover material. */
  predicate Initial(s: HoverState)
  {
    && s.saved == map[]
    && forall m :: m in s.materials ==> s.materials[m] != Highlight
  }

  lemma InitialIsValid(s: HoverState)
    requires Initial(s)
    ensures Valid(s)
  {
  }

  /** `handlePointerOver`: an unrecorded mesh has its material saved and
      wears the hover material; a recorded mesh is left alone. */
  function Over(s: HoverState, m: NodeId): (r: HoverState)
    requires m in s.materials
    ensures m in r.saved && m in r.materials
    ensures m !in s.saved ==> r.materials[m] == Highlight && r.saved[m] == s.materials[m]
    ensures m in s.saved ==> r == s
    ensures r.materials.Keys == s.materials.Keys
    ensures OnlyTouches(s, r, m)
    ensures Valid(s) ==> Valid(r)
  {
    if m !in s.saved then
      HoverState(s.materials[m := Highlight], s.saved[m := s.materials[m]])
    else
      s
  }

  /** `handlePointerOut`: a recorded mesh gets its saved material back and
      the entry is deleted; an unrecorded mesh is left alone. */
  function Out(s: HoverState, m: NodeId): (r: HoverState)
    requires m in s.materials
    ensures m !in r.saved && m in r.materials
    ensures m in s.saved ==> r.materials[m] == s.saved[m]
    ensures m !in s.saved ==> r == s
    ensures r.materials.Keys == s.materials.Keys
    ensures OnlyTouches(s, r, m)
    ensures Valid(s) ==> Valid(r) && r.materials[m] != Highlight
  {
    if m in s.saved then
      HoverState(s.materials[m := s.saved[m]], s.saved - {m})
    else
      s
  }

  /** Pointer-over then pointer-out on an unrecorded mesh gives back the
      exact state before the pointer-over. */
  lemma OverOutRoundTrip(s: HoverState, m: NodeId)
    requires m in s.materials && m !in s.saved
    ensures Out(Over(s, m), m) == s
  {
  }

  /** Repeated events of one kind act once. */
  lemma OverOutIdempotent(s: HoverState, m: NodeId)
    requires m in s.materials
    ensures Over(Over(s, m), m) == Over(s, m)
    ensures Out(Out(s, m), m) == Out(s, m)
  {
  }

  datatype Event = PointerOver(mesh: NodeId) | PointerOut(mesh: NodeId)

  function Step(s: HoverState, e: Event): (r: HoverState)
    requires e.mesh in s.materials
    ensures r.materials.Keys == s.materials.Keys
  {
    match e
    case PointerOver(m) => Over(s, m)
    case PointerOut(m) => Out(s, m)
  }

  predicate OnMeshes(es: seq<Event>, keys: set<NodeId>)
  {
    forall k :: 0 <= k < |es| ==> es[k].mesh in keys
  }

  /** The state after a sequence of events. */
  function Run(s: HoverState, es: seq<Event>): (r: HoverState)
    requires OnMeshes(es, s.materials.Keys)
    ensures r.materials.Keys == s.materials.Keys
    decreases |es|
  {
    if es == [] then s else Run(Step(s, es[0]), es[1..])
  }

  /** Reference meaning of a trace for one mesh: it is hovered after the
      trace iff the last event on it was a pointer-over (or, with no event on
      it, iff it was hovered before). */
  function HoveredAfter(before: bool, es: seq<Event>, m: NodeId): bool
    decreases |es|
  {
    if es == [] then before
    else HoveredAfter(if es[0].mesh == m then es[0].PointerOver? else before, es[1..], m)
  }

  /** The material a mesh wears when it is not hovered. */
  function Underlying(s: HoverState, m: NodeId): Material
    requires m in s.materials
  {
    if m in s.saved then s.saved[m] else s.materials[m]
  }

  /** Under any sequence of pointer events every mesh keeps its underlying
      material, wears the hover material exactly when the last event on it was
      a pointer-over, and otherwise wears its underlying material; the hover
      invariant holds throughout. */
  lemma {:induction false} RunMeaning(s: HoverState, es: seq<Event>, m: NodeId)
    requires Valid(s) && m in s.materials
    requires OnMeshes(es, s.materials.Keys)
    ensures var r := Run(s, es);
      && Valid(r)
      && m in r.materials
      && Underlying(r, m) == Underlying(s, m)
      && (m in r.saved <==> HoveredAfter(m in s.saved, es, m))
      && r.materials[m] == (if m in r.saved then Highlight else Underlying(s, m))
    decreases |es|
  {
    if es != [] {
      var t := Step(s, es[0]);
      assert Valid(t);
      assert m in t.materials;
      assert Underlying(t, m) == Underlying(s, m) by {
        if es[0].mesh != m {
          assert m in s.saved <==> m in t.saved;
          assert m in t.saved ==> t.saved[m] == s.saved[m];
          assert t.materials[m] == s.materials[m];
        }
      }
      assert m in t.saved <==> (if es[0].mesh == m then es[0].PointerOver? else m in s.saved);
      assert OnMeshes(es[1..], t.materials.Keys);
      RunMeaning(t, es[1..], m);
    }
  }
}
