/**
 * The logic of components/ModelViewer.js: the height-band classifier that
 * names the body region under a pick point, and the material highlight that
 * the `Model` component applies to the meshes of the loaded scene.
 */
module ModelViewer {
  import opened Wrappers

  // ---------------------------------------------------------------------------
  // Region classification (`getBodyPart`)
  // ---------------------------------------------------------------------------

  /** The seven region labels the classifier can emit. */
  datatype BodyPart = Head | Neck | Shoulders | Chest | Abdomen | Legs | Feet

  /** A pick point in world coordinates; only its height is consulted. */
  datatype Vec3 = Vec3(x: real, y: real, z: real)

  /** The string handed to `onSelect` for each region. */
  function Key(p: BodyPart): string {
    match p
    case Head => "head"
    case Neck => "neck"
    case Shoulders => "shoulders"
    case Chest => "chest"
    case Abdomen => "abdomen"
    case Legs => "legs"
    case Feet => "feet"
  }

  /** Position of a region counted from the bottom: feet 0, head 6. */
  function Rank(p: BodyPart): nat {
    match p
    case Feet => 0
    case Legs => 1
    case Abdomen => 2
    case Chest => 3
    case Shoulders => 4
    case Neck => 5
    case Head => 6
  }

  /** The region whose band lies directly above that of `p`. */
  function Above(p: BodyPart): (q: BodyPart)
    requires p != Head
    ensures Rank(q) == Rank(p) + 1
  {
    match p
    case Neck => Head
    case Shoulders => Neck
    case Chest => Shoulders
    case Abdomen => Chest
    case Legs => Abdomen
    case Feet => Legs
  }

  /** The strict lower bound of a region's band; feet has none. */
  function Floor(p: BodyPart): real
    requires p != Feet
  {
    match p
    case Head => 0.8
    case Neck => 0.6
    case Shoulders => 0.2
    case Chest => 0.0
    case Abdomen => -0.3
    case Legs => -0.6
  }

  /**
   * The band of `p` as an interval: above its own floor (strictly) and at or
   * below the floor of the band above it. Head is unbounded above, feet below.
   */
  predicate InBand(y: real, p: BodyPart) {
    && (p != Feet ==> Floor(p) < y)
    && (p != Head ==> y <= Floor(Above(p)))
  }

  /** The classifier: a chain of strict comparisons, tried from the top down. */
  function GetBodyPart(position: Vec3): (part: BodyPart)
    ensures InBand(position.y, part)
  {
    var y := position.y;
    if y > 0.8 then Head
    else if y > 0.6 then Neck
    else if y > 0.2 then Shoulders
    else if y > 0.0 then Chest
    else if y > -0.3 then Abdomen
    else if y > -0.6 then Legs
    else Feet
  }

  /** No height lies in two bands. */
  lemma BandsDisjoint(y: real, p: BodyPart, q: BodyPart)
    requires InBand(y, p) && InBand(y, q)
    ensures p == q
  {
    if Rank(p) < Rank(q) {
      FloorsIncrease(Above(p), q);
    } else if Rank(q) < Rank(p) {
      FloorsIncrease(Above(q), p);
    }
  }

  /** Floors grow with rank, so the bands are stacked in rank order. */
  lemma FloorsIncrease(p: BodyPart, q: BodyPart)
    requires p != Feet && q != Feet && Rank(p) <= Rank(q)
    ensures Floor(p) <= Floor(q)
  {
  }

  /** The classifier's result is exactly the region whose band holds the height. */
  lemma ClassifiedIffInBand(position: Vec3, p: BodyPart)
    ensures GetBodyPart(position) == p <==> InBand(position.y, p)
  {
    if InBand(position.y, p) {
      BandsDisjoint(position.y, p, GetBodyPart(position));
    }
  }

  /** A height equal to a band's floor is classified into the band below. */
  lemma BoundaryFallsBelow(p: BodyPart, x: real, z: real)
    requires p != Feet
    ensures Rank(GetBodyPart(Vec3(x, Floor(p), z))) + 1 == Rank(p)
  {
  }

  /** Higher pick points never yield a lower region. */
  lemma Monotone(a: Vec3, b: Vec3)
    requires a.y <= b.y
    ensures Rank(GetBodyPart(a)) <= Rank(GetBodyPart(b))
  {
  }

  /** Only the height of the pick point matters. */
  lemma DependsOnlyOnHeight(a: Vec3, b: Vec3)
    requires a.y == b.y
    ensures GetBodyPart(a) == GetBodyPart(b)
  {
  }

  /** Every one of the seven regions is emitted for some pick point. */
  lemma {:induction false} EveryPartReachable(p: BodyPart)
    ensures exists y: real :: GetBodyPart(Vec3(0.0, y, 0.0)) == p
  {
    var y: real := match p
      case Head => 1.0
      case Neck => 0.7
      case Shoulders => 0.4
      case Chest => 0.1
      case Abdomen => -0.1
      case Legs => -0.5
      case Feet => -1.0;
    assert GetBodyPart(Vec3(0.0, y, 0.0)) == p;
  }

  /** Distinct regions have distinct labels. */
  lemma KeyInjective(p: BodyPart, q: BodyPart)
    requires Key(p) == Key(q)
    ensures p == q
  {
  }

  // ---------------------------------------------------------------------------
  // Materials and highlighting
  // ---------------------------------------------------------------------------

  /** A colour, as the hex value given to `Color.set`. */
  type Color = int

  const Black: Color := 0x000000
  const SelectedColor: Color := 0x00aaff
  const SelectedGlow: Color := 0x0066ff
  const HoverGlow: Color := 0x333333

  /**
   * One mesh of the scene with its private (cloned) material: its colour,
   * its emissive colour, and the colour captured when the scene was mounted.
   */
  datatype Mesh = Mesh(color: Color, emissive: Color, originalColor: Option<Color>)

  /** `scene.traverse(visit)` restricted to the meshes, in scene order. */
  function Traverse(ms: seq<Mesh>, visit: Mesh -> Mesh): (r: seq<Mesh>)
    ensures |r| == |ms|
    ensures forall k :: 0 <= k < |ms| ==> r[k] == visit(ms[k])
  {
    if ms == [] then [] else [visit(ms[0])] + Traverse(ms[1..], visit)
  }

  /** Mount: record the mesh's current colour as its original colour. */
  function CaptureStep(m: Mesh): Mesh {
    m.(originalColor := Some(m.color))
  }

  /** Unmount: copy the original colour back, leaving the emissive alone. */
  function CleanUpStep(m: Mesh): Mesh {
    if m.originalColor.Some? then m.(color := m.originalColor.value) else m
  }

  /** Start of every highlight pass: original colour back, emissive black. */
  function ResetStep(m: Mesh): Mesh {
    if m.originalColor.Some? then m.(color := m.originalColor.value, emissive := Black) else m
  }

  /** The look of the selected mesh. */
  function Select(m: Mesh): Mesh {
    m.(color := SelectedColor, emissive := SelectedGlow)
  }

  /** The look of the hovered mesh: only its emissive changes. */
  function Glow(m: Mesh): Mesh {
    m.(emissive := HoverGlow)
  }

  /** Every mesh carries a captured original colour. */
  predicate AllCaptured(ms: seq<Mesh>) {
    forall k :: 0 <= k < |ms| ==> ms[k].originalColor.Some?
  }

  /** The component state the highlight depends on: which mesh is selected, which hovered. */
  datatype Selection = Selection(selected: Option<nat>, hovered: Option<nat>)

  predicate RefersInto(r: Option<nat>, n: nat) {
    r.Some? ==> r.value < n
  }

  /** Both references name meshes of a scene with `n` meshes. */
  predicate Fits(s: Selection, n: nat) {
    RefersInto(s.selected, n) && RefersInto(s.hovered, n)
  }

  /**
   * The meshes after one run of the selection effect: reset every mesh,
   * then paint the selected one, then make the hovered one glow unless it
   * is the selected one.
   */
  function Highlighted(ms: seq<Mesh>, s: Selection): (r: seq<Mesh>)
    requires Fits(s, |ms|)
    ensures |r| == |ms|
  {
    var reset := Traverse(ms, ResetStep);
    var painted := if s.selected.Some? then reset[s.selected.value := Select(reset[s.selected.value])] else reset;
    if s.hovered.Some? && s.hovered != s.selected
    then painted[s.hovered.value := Glow(painted[s.hovered.value])]
    else painted
  }

  /** A mesh that is neither selected nor hovered is only reset. */
  lemma HighlightRestoresOthers(ms: seq<Mesh>, s: Selection, k: nat)
    requires Fits(s, |ms|) && k < |ms|
    requires s.selected != Some(k) && s.hovered != Some(k)
    ensures Highlighted(ms, s)[k] == ResetStep(ms[k])
    ensures ms[k].originalColor.Some? ==>
      Highlighted(ms, s)[k].color == ms[k].originalColor.value && Highlighted(ms, s)[k].emissive == Black
    ensures ms[k].originalColor.None? ==> Highlighted(ms, s)[k] == ms[k]
  {
  }

  /** The selected mesh is painted, whether or not it is also hovered. */
  lemma HighlightSelected(ms: seq<Mesh>, s: Selection)
    requires Fits(s, |ms|) && s.selected.Some?
    ensures Highlighted(ms, s)[s.selected.value].color == SelectedColor
    ensures Highlighted(ms, s)[s.selected.value].emissive == SelectedGlow
  {
  }

  /** A hovered mesh other than the selected one keeps its reset colour and glows. */
  lemma HighlightHovered(ms: seq<Mesh>, s: Selection)
    requires Fits(s, |ms|) && s.hovered.Some? && s.hovered != s.selected
    ensures Highlighted(ms, s)[s.hovered.value].emissive == HoverGlow
    ensures Highlighted(ms, s)[s.hovered.value].color == ResetStep(ms[s.hovered.value]).color
    ensures ms[s.hovered.value].originalColor.Some? ==>
      Highlighted(ms, s)[s.hovered.value].color == ms[s.hovered.value].originalColor.value
  {
  }

  /** The captured original colours are never overwritten by a highlight pass. */
  lemma HighlightKeepsOriginals(ms: seq<Mesh>, s: Selection)
    requires Fits(s, |ms|)
    ensures forall k :: 0 <= k < |ms| ==> Highlighted(ms, s)[k].originalColor == ms[k].originalColor
  {
  }

  /** Running the effect twice with the same state is the same as running it once. */
  lemma HighlightIdempotent(ms: seq<Mesh>, s: Selection)
    requires Fits(s, |ms|)
    ensures Highlighted(Highlighted(ms, s), s) == Highlighted(ms, s)
  {
    var once := Highlighted(ms, s);
    var twice := Highlighted(once, s);
    forall k | 0 <= k < |ms|
      ensures twice[k] == once[k]
    {
      HighlightOutcome(ms, s, k);
      HighlightOutcome(once, s, k);
    }
  }

  /** What one highlight pass makes of mesh `k`, by the mesh's role. */
  lemma HighlightOutcome(ms: seq<Mesh>, s: Selection, k: nat)
    requires Fits(s, |ms|) && k < |ms|
    ensures Highlighted(ms, s)[k] ==
      if s.selected == Some(k) then Select(ResetStep(ms[k]))
      else if s.hovered == Some(k) then Glow(ResetStep(ms[k]))
      else ResetStep(ms[k])
  {
  }

  /** Once every mesh is captured, a highlight pass forgets all earlier passes. */
  lemma HighlightForgetsHistory(ms: seq<Mesh>, s1: Selection, s2: Selection)
    requires AllCaptured(ms) && Fits(s1, |ms|) && Fits(s2, |ms|)
    ensures Highlighted(Highlighted(ms, s1), s2) == Highlighted(ms, s2)
  {
    var first := Highlighted(ms, s1);
    forall k | 0 <= k < |ms|
      ensures Highlighted(first, s2)[k] == Highlighted(ms, s2)[k]
    {
      HighlightOutcome(ms, s1, k);
      HighlightOutcome(first, s2, k);
      HighlightOutcome(ms, s2, k);
    }
  }

  /** With nothing selected or hovered, every captured mesh shows its original colour. */
  lemma ClearRestoresAll(ms: seq<Mesh>)
    requires AllCaptured(ms)
    ensures forall k :: 0 <= k < |ms| ==>
      Highlighted(ms, Selection(None, None))[k] == Mesh(ms[k].originalColor.value, Black, ms[k].originalColor)
  {
  }

  /** The effect run once per state in `steps`, in order. */
  function ApplyEach(ms: seq<Mesh>, steps: seq<Selection>): (r: seq<Mesh>)
    requires forall i :: 0 <= i < |steps| ==> Fits(steps[i], |ms|)
    ensures |r| == |ms|
    decreases |steps|
  {
    if steps == [] then ms else ApplyEach(Highlighted(ms, steps[0]), steps[1..])
  }

  /**
   * Reversibility: whatever was selected and hovered before, once the state
   * returns to nothing selected and nothing hovered, every captured mesh is
   * back to its original colour with a black emissive.
   */
  lemma {:induction false} ReversibleAfterClear(ms: seq<Mesh>, steps: seq<Selection>)
    requires AllCaptured(ms)
    requires forall i :: 0 <= i < |steps| ==> Fits(steps[i], |ms|)
    requires |steps| > 0 && steps[|steps| - 1] == Selection(None, None)
    ensures forall k :: 0 <= k < |ms| ==>
      ApplyEach(ms, steps)[k] == Mesh(ms[k].originalColor.value, Black, ms[k].originalColor)
    decreases |steps|
  {
    if |steps| == 1 {
      ClearRestoresAll(ms);
    } else {
      var next := Highlighted(ms, steps[0]);
      HighlightKeepsOriginals(ms, steps[0]);
      ReversibleAfterClear(next, steps[1..]);
    }
  }

  /** Capturing gives every mesh an original colour equal to its current one. */
  lemma CaptureRecordsColours(ms: seq<Mesh>)
    ensures AllCaptured(Traverse(ms, CaptureStep))
    ensures forall k :: 0 <= k < |ms| ==>
      Traverse(ms, CaptureStep)[k].originalColor == Some(ms[k].color)
      && Traverse(ms, CaptureStep)[k].color == ms[k].color
      && Traverse(ms, CaptureStep)[k].emissive == ms[k].emissive
  {
  }

  /** The clean-up restores every captured colour but leaves each emissive as it was. */
  lemma CleanUpRestoresColours(ms: seq<Mesh>)
    requires AllCaptured(ms)
    ensures forall k :: 0 <= k < |ms| ==>
      Traverse(ms, CleanUpStep)[k] == ms[k].(color := ms[k].originalColor.value)
  {
  }

  /** Unmounting and mounting again captures the very same original colours. */
  lemma RecaptureAfterCleanUp(ms: seq<Mesh>)
    requires AllCaptured(ms)
    ensures Traverse(Traverse(ms, CleanUpStep), CaptureStep) == Traverse(ms, CleanUpStep)
  {
    var cleaned := Traverse(ms, CleanUpStep);
    assert forall k :: 0 <= k < |cleaned| ==> CaptureStep(cleaned[k]) == cleaned[k];
  }

  /**
   * Capturing while a mesh is still painted would record the highlight colour
   * as the original one, which is why the clean-up must run first.
   */
  lemma CaptureWhileSelectedLosesOriginal(ms: seq<Mesh>, k: nat, h: Option<nat>)
    requires k < |ms| && RefersInto(h, |ms|)
    requires ms[k].originalColor != Some(SelectedColor)
    ensures Traverse(Highlighted(ms, Selection(Some(k), h)), CaptureStep)[k].originalColor == Some(SelectedColor)
    ensures Traverse(Highlighted(ms, Selection(Some(k), h)), CaptureStep)[k].originalColor != ms[k].originalColor
  {
    HighlightOutcome(ms, Selection(Some(k), h), k);
  }

  // ---------------------------------------------------------------------------
  // The `Model` component
  // ---------------------------------------------------------------------------

  /**
   * The `Model` component: the meshes of the loaded scene, each with its
   * private material, and the `hovered` and `selected` state. A mesh is
   * identified by its index in `meshes`.
   */
  class HumanModel {
    var meshes: array<Mesh>
    var hovered: Option<nat>
    var selected: Option<nat>

    ghost predicate Valid()
      reads this
    {
      Fits(Selection(selected, hovered), meshes.Length)
    }

    /** The selection state as one value. */
    function Current(): Selection
      reads this
    {
      Selection(selected, hovered)
    }

    /** A freshly loaded scene; nothing hovered or selected. */
    constructor (scene: seq<Mesh>)
      ensures Valid() && fresh(meshes)
      ensures meshes[..] == scene && hovered == None && selected == None
    {
      meshes := new Mesh[|scene|](i requires 0 <= i < |scene| => scene[i]);
      hovered := None;
      selected := None;
    }

    /** Mount effect: record every mesh's colour as its original colour. */
    method CaptureMaterials()
      modifies meshes
      ensures meshes[..] == Traverse(old(meshes[..]), CaptureStep)
      ensures AllCaptured(meshes[..])
    {
      var i := 0;
      while i < meshes.Length
        invariant 0 <= i <= meshes.Length
        invariant forall k :: 0 <= k < i ==> meshes[k] == CaptureStep(old(meshes[k]))
        invariant forall k :: i <= k < meshes.Length ==> meshes[k] == old(meshes[k])
      {
        meshes[i] := meshes[i].(originalColor := Some(meshes[i].color));
        i := i + 1;
      }
      CaptureRecordsColours(old(meshes[..]));
    }

    /** Unmount clean-up: copy every captured colour back. */
    method CleanUp()
      modifies meshes
      ensures meshes[..] == Traverse(old(meshes[..]), CleanUpStep)
    {
      var i := 0;
      while i < meshes.Length
        invariant 0 <= i <= meshes.Length
        invariant forall k :: 0 <= k < i ==> meshes[k] == CleanUpStep(old(meshes[k]))
        invariant forall k :: i <= k < meshes.Length ==> meshes[k] == old(meshes[k])
      {
        var m := meshes[i];
        if m.originalColor.Some? {
          meshes[i] := m.(color := m.originalColor.value);
        }
        i := i + 1;
      }
    }

    /** The selection effect, run after `hovered` or `selected` changes. */
    method ApplyHighlight()
      requires Valid()
      modifies meshes
      ensures meshes[..] == Highlighted(old(meshes[..]), Current())
    {
      var i := 0;
      while i < meshes.Length
        invariant 0 <= i <= meshes.Length
        invariant forall k :: 0 <= k < i ==> meshes[k] == ResetStep(old(meshes[k]))
        invariant forall k :: i <= k < meshes.Length ==> meshes[k] == old(meshes[k])
      {
        var m := meshes[i];
        if m.originalColor.Some? {
          meshes[i] := m.(color := m.originalColor.value, emissive := Black);
        }
        i := i + 1;
      }
      assert meshes[..] == Traverse(old(meshes[..]), ResetStep);
      if selected.Some? {
        var s := selected.value;
        meshes[s] := meshes[s].(color := SelectedColor, emissive := SelectedGlow);
      }
      if hovered.Some? && hovered != selected {
        var h := hovered.value;
        meshes[h] := meshes[h].(emissive := HoverGlow);
      }
    }

    /** A click on mesh `target` at `point`: select it and report the region. */
    method Click(target: nat, point: Vec3) returns (part: BodyPart)
      requires Valid() && target < meshes.Length
      modifies this, meshes
      ensures Valid() && meshes == old(meshes)
      ensures selected == Some(target) && hovered == old(hovered)
      ensures meshes[..] == Highlighted(old(meshes[..]), Current())
      ensures InBand(point.y, part)
    {
      selected := Some(target);
      ApplyHighlight();
      part := GetBodyPart(point);
    }

    /** The pointer enters mesh `target`. */
    method PointerOver(target: nat)
      requires Valid() && target < meshes.Length
      modifies this, meshes
      ensures Valid() && meshes == old(meshes)
      ensures hovered == Some(target) && selected == old(selected)
      ensures meshes[..] == Highlighted(old(meshes[..]), Current())
    {
      hovered := Some(target);
      ApplyHighlight();
    }

    /** The pointer leaves the model. */
    method PointerOut()
      requires Valid()
      modifies this, meshes
      ensures Valid() && meshes == old(meshes)
      ensures hovered == None && selected == old(selected)
      ensures meshes[..] == Highlighted(old(meshes[..]), Current())
    {
      hovered := None;
      ApplyHighlight();
    }
  }
}
