/** The per-frame operations on a set-up layer list: update (refresh from the next
    incoming list, then setupSmartComposition), getPlane, and what deinitialize hands
    back to the plane manager. */
module Refresh {
  import opened Layers
  import opened Frames

  /** Whether some layer of mFBLayers among its first n reports an update. */
  predicate AnyFbUpdated(f: Frame, n: nat)
    requires Indexed(f) && n <= |f.fb|
  {
    exists k :: 0 <= k < n && f.layers[f.fb[k]].raw.updated
  }

  /** The composition type setupSmartComposition gives the FB layers: HWC_OVERLAY (the
      previous frame's framebuffer content is reused) when no FB layer was updated,
      HWC_FRAMEBUFFER otherwise. */
  function SmartType(f: Frame): (c: Composition)
    requires Indexed(f)
    ensures c == Framebuffer || c == Overlay
  {
    if AnyFbUpdated(f, |f.fb|) then Framebuffer else Overlay
  }

  predicate IsFbKind(kind: LayerType)
  {
    kind == LayerFb || kind == LayerForceFb
  }

  /** The layer after the second loop of setupSmartComposition: an FB or forced-FB layer
      of mFBLayers takes composition type c; any other layer is left alone. */
  function WithComposition(f: Frame, L: nat, c: Composition): Layer
    requires Indexed(f) && L < |f.layers|
  {
    var layer := f.layers[L];
    if L in f.fb && IsFbKind(layer.kind) then layer.(raw := layer.raw.(composition := c)) else layer
  }

  /** setupSmartComposition. */
  function SmartComposed(f: Frame): (g: Frame)
    requires Indexed(f)
    ensures Indexed(g) && |g.layers| == |f.layers| && g.fb == f.fb && g.config == f.config && g.fbt == f.fbt
    ensures forall L :: 0 <= L < |f.layers| ==> g.layers[L].raw.updated == f.layers[L].raw.updated
  {
    var c := SmartType(f);
    f.(layers := seq(|f.layers|, L requires 0 <= L < |f.layers| => WithComposition(f, L, c)))
  }

  /** Smart composition is all or nothing: every FB layer in mFBLayers ends up composed by
      the GPU when any of them was updated, and every one is skipped (HWC_OVERLAY) when
      none was; nothing else about any layer changes. */
  lemma SmartCompositionAllOrNothing(f: Frame)
    requires Indexed(f)
    ensures var g := SmartComposed(f);
      && |g.layers| == |f.layers| && g.fb == f.fb
      && (forall L :: 0 <= L < |f.layers| && L in f.fb && IsFbKind(f.layers[L].kind) ==>
            g.layers[L].raw.composition == (if AnyFbUpdated(f, |f.fb|) then Framebuffer else Overlay))
      && (forall L :: 0 <= L < |f.layers| ==>
            g.layers[L] == f.layers[L].(raw := f.layers[L].raw.(composition := g.layers[L].raw.composition)))
      && (forall L :: 0 <= L < |f.layers| && !(L in f.fb && IsFbKind(f.layers[L].kind)) ==> g.layers[L] == f.layers[L])
  {
  }

  /** Smart composition depends on the updates only: running it again changes nothing. */
  lemma {:induction false} SmartCompositionIdempotent(f: Frame)
    requires Indexed(f)
    ensures SmartComposed(SmartComposed(f)) == SmartComposed(f)
  {
    var g := SmartComposed(f);
    assert g.fb == f.fb;
    assert AnyFbUpdated(g, |g.fb|) == AnyFbUpdated(f, |f.fb|) by {
      assert forall k :: 0 <= k < |f.fb| ==> g.layers[f.fb[k]].raw.updated == f.layers[f.fb[k]].raw.updated;
    }
    var h := SmartComposed(g);
    forall L | 0 <= L < |f.layers| ensures h.layers[L] == g.layers[L] {
    }
  }

  /** The layers after the loop of update: each HwcLayer now wraps the layer at its index
      in the new list. */
  function Rewrapped(f: Frame, raws: seq<RawLayer>): (g: Frame)
    requires Indexed(f) && |raws| == |f.layers|
    ensures Indexed(g) && g.fb == f.fb
  {
    f.(layers := seq(|f.layers|, i requires 0 <= i < |f.layers| => f.layers[i].(raw := raws[i])))
  }

  /** update: fails with nothing changed on a null list or one whose size is not
      mLayerCount; otherwise refreshes every layer and sets up smart composition. */
  function Updated(f: Frame, list: Option<seq<RawLayer>>): (r: Option<Frame>)
    requires Indexed(f)
    ensures r.Some? <==> list.Some? && |list.value| == f.count
    ensures r.Some? ==> Indexed(r.value)
  {
    if list.None? || |list.value| != f.count then None
    else Some(SmartComposed(Rewrapped(f, list.value)))
  }

  /** After a successful update every layer wraps the new list's layer at its index, with
      only the composition type of FB layers rewritten, and keeps its type, index, flag
      and plane. */
  lemma UpdateRefreshesEveryLayer(f: Frame, raws: seq<RawLayer>)
    requires Indexed(f) && |raws| == f.count
    ensures var g := Updated(f, Some(raws)).value;
      && g.fb == f.fb && g.sprites == f.sprites && g.overlays == f.overlays
      && g.config == f.config && g.fbt == f.fbt && g.count == f.count
      && forall L :: 0 <= L < |f.layers| ==>
           g.layers[L] == f.layers[L].(raw := raws[L].(composition := g.layers[L].raw.composition))
           && (!(L in f.fb && IsFbKind(f.layers[L].kind)) ==> g.layers[L].raw == raws[L])
  {
    SmartCompositionAllOrNothing(Rewrapped(f, raws));
  }

  /** getPlane: no plane for an index out of range, for a layer the GPU composes (FB,
      forced FB) or skips, or for a layer without buffer; otherwise the layer's plane. */
  function PlaneAt(f: Frame, index: nat): (p: Option<Attached>)
    requires Indexed(f)
    ensures p.Some? ==> index < |f.layers| && f.layers[index].plane == p
    ensures p.Some? ==> !IsFbKind(f.layers[index].kind) && f.layers[index].kind != LayerSkipped
    ensures p.Some? ==> f.layers[index].raw.handle != 0
    ensures (index < |f.layers| && !IsFbKind(f.layers[index].kind) && f.layers[index].kind != LayerSkipped
             && f.layers[index].raw.handle != 0) ==> p == f.layers[index].plane
  {
    if index >= |f.layers| then None
    else
      var layer := f.layers[index];
      if IsFbKind(layer.kind) || layer.kind == LayerSkipped then None
      else if layer.raw.handle == 0 then None
      else layer.plane
  }

  /** After a successful attachPlanes, getPlane reports for every committed layer with a
      buffer exactly the plane it was given at its position in the configuration. */
  lemma PlaneAtAfterAttach(f: Frame, env: Env, k: nat)
    requires Indexed(f) && DistinctLayers(f.config) && DistinctIndices(f.fb)
    requires Attach(f, env).Some? && k < |f.config|
    requires f.layers[f.config[k].layer].raw.handle != 0
    requires f.fbt == Some(f.config[k].layer) ==> f.layers[f.config[k].layer].kind == LayerFramebufferTarget
    ensures Indexed(Attach(f, env).value)
    ensures PlaneAt(Attach(f, env).value, f.config[k].layer)
         == Some(Attached(env.planeFor(f.config, k), f.config[k].planeType, k))
  {
    CommitPrefixIndexed(f, f.config, |f.config|, env);
    AttachEffect(f, env);
    var g := Attach(f, env).value;
    var L := f.config[k].layer;
    assert g.layers[L] == Committed(f, f.config, k, env);
    assert g.layers[L].raw == f.layers[L].raw;
  }

  /** The planes deinitialize hands back to the plane manager: those attached to the
      layers, in list order. */
  function AttachedPlanes(layers: seq<Layer>): (ps: seq<PlaneId>)
    ensures |ps| <= |layers|
  {
    if layers == [] then []
    else
      var last := layers[|layers| - 1];
      AttachedPlanes(layers[..|layers| - 1]) + (if last.plane.Some? then [last.plane.value.plane] else [])
  }

  /** Exactly the attached planes are reclaimed, and nothing is when no layer has one. */
  lemma {:induction false} AttachedPlanesAreReclaimed(layers: seq<Layer>)
    ensures forall p :: p in AttachedPlanes(layers) <==>
      exists i :: 0 <= i < |layers| && layers[i].plane.Some? && layers[i].plane.value.plane == p
    ensures (forall i :: 0 <= i < |layers| ==> layers[i].plane.None?) <==> AttachedPlanes(layers) == []
  {
    if layers != [] {
      var n := |layers|;
      var init := layers[..n - 1];
      AttachedPlanesAreReclaimed(init);
      assert forall i :: 0 <= i < n - 1 ==> init[i] == layers[i];
    }
  }
}
