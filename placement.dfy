/** Placement of the primary plane (assignPrimaryPlane, assignPrimaryPlaneHelper) and the
    geometric test that licenses a z-order for the framebuffer target
    (useAsFrameBufferTarget). */
module Placement {
  import opened Geometry
  import opened Layers
  import opened ZOrder
  import opened Frames

  /** mFBLayers[k]->mPlaneCandidate. */
  predicate FbCandidate(f: Frame, k: nat)
    requires Indexed(f) && k < |f.fb|
  {
    f.layers[f.fb[k]].candidate
  }

  /** The display frame of mFBLayers[k]. */
  function FbFrame(f: Frame, k: nat): Rect
    requires Indexed(f) && k < |f.fb|
  {
    f.layers[f.fb[k]].raw.frame
  }

  /** useAsFrameBufferTarget reads mFBLayers at every position below the target index
      and up to mLayerCount - 2; this is when those positions exist. */
  predicate TargetInRange(f: Frame, t: nat)
  {
    Indexed(f) && t <= |f.fb| && f.count <= |f.fb| + 1
  }

  /** useAsFrameBufferTarget for the layer with index t, mFBLayers being indexed by
      layer index. Below t: no candidate lies between a non-candidate and t and overlaps
      it. Above t, up to mLayerCount - 2: no candidate lies between t and a non-candidate
      and overlaps it. */
  predicate UseAsFrameBufferTarget(f: Frame, t: nat): (r: bool)
    requires TargetInRange(f, t)
    ensures (forall k :: 0 <= k < |f.fb| ==> !FbCandidate(f, k)) ==> r
    ensures (forall k :: 0 <= k < |f.fb| ==> FbCandidate(f, k)) ==> r
  {
    && (forall below, above :: 0 <= below < above < t && !FbCandidate(f, below) && FbCandidate(f, above)
          ==> !HasIntersection(FbFrame(f, above), FbFrame(f, below)))
    && (forall below, above :: t < below < above < f.count - 1 && FbCandidate(f, below) && !FbCandidate(f, above)
          ==> !HasIntersection(FbFrame(f, above), FbFrame(f, below)))
  }

  /** Moving every non-candidate FB layer to position t keeps its order relative to each
      candidate it overlaps: a candidate c and a non-candidate q that intersect lie on the
      same side of t as of each other. */
  predicate MergeKeepsOverlapOrder(f: Frame, t: nat)
    requires Indexed(f)
  {
    forall q, c ::
      (0 <= q < |f.fb| && 0 <= c < |f.fb| && !FbCandidate(f, q) && FbCandidate(f, c) && ((q < c) != (t < c)))
      ==> !HasIntersection(FbFrame(f, c), FbFrame(f, q))
  }

  /** The two nested loops of useAsFrameBufferTarget decide exactly the merge rule, when
      mFBLayers holds every layer except the framebuffer target. */
  lemma UseAsFrameBufferTargetIsMergeRule(f: Frame, t: nat)
    requires Ready(f) && t < f.count
    requires t < |f.fb| ==> !FbCandidate(f, t)
    ensures UseAsFrameBufferTarget(f, t) <==> MergeKeepsOverlapOrder(f, t)
  {
    if UseAsFrameBufferTarget(f, t) {
      forall q, c | 0 <= q < |f.fb| && 0 <= c < |f.fb| && !FbCandidate(f, q) && FbCandidate(f, c)
        && ((q < c) != (t < c))
        ensures !HasIntersection(FbFrame(f, c), FbFrame(f, q))
      {
        if q < c {
          assert c < t;
        } else {
          assert t < c < q;
          HasIntersectionSymmetric(FbFrame(f, c), FbFrame(f, q));
        }
      }
    }
    if MergeKeepsOverlapOrder(f, t) {
      forall below, above | t < below < above < f.count - 1 && FbCandidate(f, below) && !FbCandidate(f, above)
        ensures !HasIntersection(FbFrame(f, above), FbFrame(f, below))
      {
        HasIntersectionSymmetric(FbFrame(f, above), FbFrame(f, below));
      }
    }
  }

  /** The loop at the top of assignPrimaryPlane, from position i of mSpriteCandidates
      downwards: it stops at the first candidate and keeps the last non-candidate seen. */
  function UnusedSpriteScan(f: Frame, i: nat, seen: Option<nat>): (r: Option<nat>)
    requires Indexed(f) && i <= |f.sprites|
    ensures seen.Some? ==> r.Some?
    ensures r.Some? && r != seen ==> r.value in f.sprites && !f.layers[r.value].candidate
  {
    if i == 0 then seen
    else if f.layers[f.sprites[i - 1]].candidate then seen
    else UnusedSpriteScan(f, i - 1, Some(f.sprites[i - 1]))
  }

  /** The sprite candidate assignPrimaryPlane may put on the primary plane: a sprite
      candidate that holds no record, found exactly when the last sprite candidate holds
      none. */
  function UnusedSprite(f: Frame): (r: Option<nat>)
    requires Indexed(f)
    ensures r.Some? ==> r.value in f.sprites && !f.layers[r.value].candidate
    ensures r.None? <==> |f.sprites| == 0 || f.layers[f.sprites[|f.sprites| - 1]].candidate
  {
    UnusedSpriteScan(f, |f.sprites|, None)
  }

  /** The sprite candidate the scan finds is the lowest one of the unused run at the
      top: all candidates from it upwards hold no record and the one below it, if any,
      holds one. */
  lemma UnusedSpriteIsLowestOfTopRun(f: Frame) returns (j: nat)
    requires Indexed(f) && UnusedSprite(f).Some?
    ensures j < |f.sprites| && UnusedSprite(f).value == f.sprites[j]
    ensures forall k :: j <= k < |f.sprites| ==> !f.layers[f.sprites[k]].candidate
    ensures j == 0 || f.layers[f.sprites[j - 1]].candidate
  {
    var n := |f.sprites|;
    assert UnusedSprite(f) == UnusedSpriteScan(f, n - 1, Some(f.sprites[n - 1]));
    j := ScanFindsRun(f, n - 1, n);
  }

  lemma {:induction false} ScanFindsRun(f: Frame, i: nat, n: nat) returns (j: nat)
    requires Indexed(f) && n == |f.sprites| && i < n
    requires forall k :: i <= k < n ==> !f.layers[f.sprites[k]].candidate
    ensures j <= i && UnusedSpriteScan(f, i, Some(f.sprites[i])) == Some(f.sprites[j])
    ensures forall k :: j <= k < n ==> !f.layers[f.sprites[k]].candidate
    ensures j == 0 || f.layers[f.sprites[j - 1]].candidate
  {
    if i > 0 && !f.layers[f.sprites[i - 1]].candidate {
      j := ScanFindsRun(f, i - 1, n);
      assert UnusedSpriteScan(f, i, Some(f.sprites[i])) == UnusedSpriteScan(f, i - 1, Some(f.sprites[i - 1]));
    } else {
      j := i;
    }
  }

  /** assignPrimaryPlaneHelper: adds a primary-plane record for layer L and attaches. On
      failure the caller sees no change (the method removes the record again). */
  function PlacePrimaryAt(f: Frame, env: Env, L: nat, zorder: int): (r: Option<Frame>)
    requires Indexed(f) && L < |f.layers|
    ensures r.Some? ==> r.value.config == []
  {
    Attach(AddRecord(f, PlanePrimary, L, zorder), env)
  }

  /** The loop of the last branch of assignPrimaryPlane, from position i of mFBLayers:
      the first non-candidate FB layer that passes useAsFrameBufferTarget and whose
      attach succeeds gets the framebuffer target at its z-order. */
  function ScanForTarget(f: Frame, env: Env, i: nat): (r: Option<Frame>)
    requires Ready(f) && i <= |f.fb|
    ensures r.Some? ==> r.value.config == []
    decreases |f.fb| - i
  {
    if i == |f.fb| then None
    else
      var L := f.fb[i];
      if f.layers[L].candidate then ScanForTarget(f, env, i + 1)
      else if UseAsFrameBufferTarget(f, f.layers[L].index) then
        match PlacePrimaryAt(f, env, f.fbt.value, f.layers[L].index)
        case Some(g) => Some(g)
        case None => ScanForTarget(f, env, i + 1)
      else ScanForTarget(f, env, i + 1)
  }

  /** assignPrimaryPlane: its four branches, in the order the code tests them. */
  function PlacePrimary(f: Frame, env: Env): (r: Option<Frame>)
    requires Ready(f)
    ensures r.Some? ==> r.value.config == []
  {
    var sprite := UnusedSprite(f);
    var candidates := |f.config|;
    var layers := |f.fb|;
    if candidates == layers - 1 && sprite.Some? then
      assert sprite.value < |f.layers|;
      PlacePrimaryAt(f, env, sprite.value, -1)
    else if candidates == 0 then PlacePrimaryAt(f, env, f.fbt.value, 0)
    else if candidates == layers then Attach(f, env)
    else ScanForTarget(f, env, 0)
  }
}
