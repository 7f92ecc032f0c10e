/** HwcLayerList as an object: its vectors are fields the methods update in place, and
    each method is proved against the function on Frame that specifies it. */
module LayerList {
  import opened Layers
  import opened ZOrder
  import opened Frames
  import opened Placement
  import opened Search
  import opened SearchProps
  import opened Classify
  import opened Refresh

  class HwcLayerList {
    var layers: seq<Layer>                 // mLayers
    var fbLayers: seq<nat>                 // mFBLayers
    var spriteCandidates: seq<nat>         // mSpriteCandidates
    var overlayCandidates: seq<nat>        // mOverlayCandidates
    var zorderConfig: seq<ZOrderLayer>     // mZOrderConfig
    var frameBufferTarget: Option<nat>     // mFrameBufferTarget
    var layerCount: nat                    // mLayerCount

    /** The object's state as a value. */
    function State(): Frame
      reads this
    {
      Frame(layers, fbLayers, spriteCandidates, overlayCandidates, zorderConfig, frameBufferTarget, layerCount)
    }

    /** addZOrderLayer: returns the new record. */
    method AddZOrderLayer(planeType: PlaneType, L: nat, zorder: int) returns (r: ZOrderLayer)
      requires Indexed(State()) && L < |layers|
      modifies this
      ensures r == NewRecord(old(State()), planeType, L, zorder)
      ensures State() == AddRecord(old(State()), planeType, L, zorder)
    {
      r := ZOrderLayer(planeType, L, if zorder != -1 then zorder else layers[L].index);
      layers := layers[L := layers[L].(candidate := true)];
      zorderConfig := Insert(zorderConfig, r);
    }

    /** removeZOrderLayer. */
    method RemoveZOrderLayer(r: ZOrderLayer)
      requires Indexed(State()) && r.layer < |layers|
      modifies this
      ensures State() == RemoveRecord(old(State()), r)
    {
      zorderConfig := Remove(zorderConfig, r);
      layers := layers[r.layer := layers[r.layer].(candidate := false)];
    }

    /** attachPlanes. */
    method AttachPlanes(env: Env) returns (ok: bool)
      requires Indexed(State())
      modifies this
      ensures ok <==> Attach(old(State()), env).Some?
      ensures ok ==> State() == Attach(old(State()), env).value
      ensures !ok ==> State() == old(State())
    {
      if !env.validZOrder(zorderConfig) {
        return false;
      }
      if !env.assignPlanes(zorderConfig) {
        return false;
      }
      CommitAll(env);
      zorderConfig := [];
      ok := true;
    }

    /** The loop of attachPlanes: every record of mZOrderConfig is committed in turn. */
    method CommitAll(env: Env)
      requires Indexed(State())
      modifies this
      ensures State() == CommitPrefix(old(State()), old(zorderConfig), |old(zorderConfig)|, env)
    {
      ghost var f0 := State();
      var i := 0;
      while i < |zorderConfig|
        invariant 0 <= i <= |f0.config| && zorderConfig == f0.config && |layers| == |f0.layers|
        invariant State() == CommitPrefix(f0, f0.config, i, env)
      {
        assert zorderConfig[i] in f0.config && zorderConfig[i].layer < |f0.layers|;
        ghost var before := State();
        CommitOne(i, env);
        assert State() == CommitRecord(before, f0.config, i, env);
        assert CommitPrefix(f0, f0.config, i + 1, env) == CommitRecord(before, f0.config, i, env);
        i := i + 1;
      }
    }

    /** One iteration of the loop of attachPlanes: layer mZOrderConfig[i] takes its plane
        and, unless it is the framebuffer target, becomes LAYER_OVERLAY and leaves
        mFBLayers. */
    method CommitOne(i: nat, env: Env)
      requires i < |zorderConfig| && zorderConfig[i].layer < |layers|
      modifies this
      ensures State() == CommitRecord(old(State()), old(zorderConfig), i, env)
    {
      var z := zorderConfig[i];
      var L := z.layer;
      var attached := layers[L].(plane := Some(Attached(env.planeFor(zorderConfig, i), z.planeType, i)));
      if frameBufferTarget != Some(L) {
        attached := attached.(kind := LayerOverlay);
        fbLayers := RemoveItem(fbLayers, L);
      }
      layers := layers[L := attached];
    }

    /** deinitialize: hands every attached plane back (the result lists them, in list
        order) and empties the list; nothing happens on a list already empty. */
    method Deinitialize() returns (reclaimed: seq<PlaneId>)
      modifies this
      ensures old(layerCount) == 0 ==> reclaimed == [] && State() == old(State())
      ensures old(layerCount) != 0 ==> reclaimed == AttachedPlanes(old(layers)) && State() == EmptyFrame
    {
      reclaimed := [];
      if layerCount == 0 {
        return;
      }
      var i := 0;
      while i < |layers|
        invariant 0 <= i <= |layers| && layers == old(layers)
        invariant reclaimed == AttachedPlanes(layers[..i])
      {
        assert layers[..i + 1][..i] == layers[..i];
        if layers[i].plane.Some? {
          reclaimed := reclaimed + [layers[i].plane.value.plane];
        }
        i := i + 1;
      }
      assert layers[..i] == layers;
      layers := [];
      fbLayers := [];
      overlayCandidates := [];
      spriteCandidates := [];
      zorderConfig := [];
      frameBufferTarget := None;
      layerCount := 0;
    }

    /** setupSmartComposition. */
    method SetupSmartComposition()
      requires Indexed(State())
      modifies this
      ensures State() == SmartComposed(old(State()))
    {
      var compositionType := FbCompositionType();
      ApplyFbComposition(compositionType);
    }

    /** The first loop of setupSmartComposition: HWC_FRAMEBUFFER as soon as one layer of
        mFBLayers reports an update, HWC_OVERLAY otherwise. */
    method FbCompositionType() returns (compositionType: Composition)
      requires Indexed(State())
      ensures compositionType == SmartType(State())
    {
      compositionType := Overlay;
      var i := 0;
      while i < |fbLayers|
        invariant 0 <= i <= |fbLayers|
        invariant compositionType == if AnyFbUpdated(State(), i) then Framebuffer else Overlay
      {
        if layers[fbLayers[i]].raw.updated {
          compositionType := Framebuffer;
        }
        i := i + 1;
      }
    }

    /** The second loop of setupSmartComposition: every FB or forced-FB layer of
        mFBLayers takes that composition type. */
    method ApplyFbComposition(compositionType: Composition)
      requires Indexed(State()) && compositionType == SmartType(State())
      modifies this
      ensures State() == SmartComposed(old(State()))
    {
      ghost var f0 := State();
      var i := 0;
      while i < |fbLayers|
        invariant 0 <= i <= |fbLayers| && fbLayers == f0.fb && |layers| == |f0.layers|
        invariant State() == f0.(layers := layers)
        invariant forall L :: 0 <= L < |layers| ==>
          layers[L] == if L in f0.fb[..i] then WithComposition(f0, L, compositionType) else f0.layers[L]
      {
        var L := fbLayers[i];
        var layer := layers[L];
        ghost var prev := layers;
        if layer.kind == LayerFb || layer.kind == LayerForceFb {
          layers := layers[L := layer.(raw := layer.raw.(composition := compositionType))];
        }
        assert f0.fb[..i + 1] == f0.fb[..i] + [L];
        forall M | 0 <= M < |layers|
          ensures layers[M] == if M in f0.fb[..i + 1] then WithComposition(f0, M, compositionType) else f0.layers[M]
        {
          if M != L {
            assert layers[M] == prev[M];
            assert (M in f0.fb[..i + 1]) == (M in f0.fb[..i]);
          }
        }
        i := i + 1;
      }
      assert f0.fb[..i] == f0.fb;
      ghost var g := SmartComposed(f0);
      forall L | 0 <= L < |layers| ensures layers[L] == g.layers[L] {
        assert g.layers[L] == WithComposition(f0, L, compositionType);
      }
      assert layers == g.layers;
    }

    /** update: on a null list or one of another size, fails and changes nothing. */
    method Update(list: Option<seq<RawLayer>>) returns (ok: bool)
      requires Indexed(State())
      modifies this
      ensures ok <==> Updated(old(State()), list).Some?
      ensures ok ==> State() == Updated(old(State()), list).value
      ensures !ok ==> State() == old(State())
    {
      if list.None? {
        return false;
      }
      var raws := list.value;
      if |raws| != layerCount {
        return false;
      }
      ghost var f0 := State();
      var i := 0;
      while i < layerCount
        invariant 0 <= i <= layerCount && |layers| == layerCount
        invariant State() == f0.(layers := layers)
        invariant forall k :: 0 <= k < |layers| ==> layers[k] == if k < i then f0.layers[k].(raw := raws[k]) else f0.layers[k]
      {
        layers := layers[i := layers[i].(raw := raws[i])];
        i := i + 1;
      }
      assert State() == Rewrapped(f0, raws);
      SetupSmartComposition();
      ok := true;
    }

    /** assignPrimaryPlaneHelper: adds a primary-plane record for layer L and attaches;
        on failure the record is removed again and nothing has changed. */
    method AssignPrimaryPlaneHelper(L: nat, zorder: int, env: Env) returns (ok: bool)
      requires Consistent(State()) && L < |layers| && !layers[L].candidate
      modifies this
      ensures ok <==> PlacePrimaryAt(old(State()), env, L, zorder).Some?
      ensures ok ==> State() == PlacePrimaryAt(old(State()), env, L, zorder).value
      ensures !ok ==> State() == old(State())
    {
      ghost var f0 := State();
      var zlayer := AddZOrderLayer(PlanePrimary, L, zorder);
      ok := AttachPlanes(env);
      if !ok {
        RemoveZOrderLayer(zlayer);
        RemoveUndoesAdd(f0, PlanePrimary, L, zorder);
      }
    }

    /** The first loop of assignPrimaryPlane: from the last sprite candidate down, the
        lowest of the top run of sprite candidates that hold no record. */
    method FindUnusedSprite() returns (spriteLayer: Option<nat>)
      requires Indexed(State())
      ensures spriteLayer == UnusedSprite(State())
      ensures spriteLayer.Some? ==> spriteLayer.value < |layers| && !layers[spriteLayer.value].candidate
    {
      spriteLayer := None;
      var i := |spriteCandidates|;
      while i > 0
        invariant 0 <= i <= |spriteCandidates|
        invariant UnusedSpriteScan(State(), i, spriteLayer) == UnusedSprite(State())
      {
        if layers[spriteCandidates[i - 1]].candidate {
          break;
        }
        spriteLayer := Some(spriteCandidates[i - 1]);
        i := i - 1;
      }
    }

    /** The last loop of assignPrimaryPlane: the framebuffer target goes at the z-order of
        the first FB layer, in mFBLayers order, that holds no record, passes
        useAsFrameBufferTarget and whose placement succeeds. */
    method PlaceTargetInFbOrder(env: Env) returns (ok: bool)
      requires PrimaryInv(State())
      modifies this
      ensures ok <==> ScanForTarget(old(State()), env, 0).Some?
      ensures ok ==> State() == ScanForTarget(old(State()), env, 0).value
      ensures !ok ==> State() == old(State())
    {
      ghost var f0 := State();
      var k := 0;
      while k < |fbLayers|
        invariant 0 <= k <= |f0.fb| && State() == f0
        invariant ScanForTarget(f0, env, k) == ScanForTarget(f0, env, 0)
        decreases |f0.fb| - k
      {
        ok := PlaceTargetAt(f0, k, env);
        if ok {
          return;
        }
        k := k + 1;
      }
      ok := false;
    }

    /** One iteration of that loop, at position k of mFBLayers. */
    method PlaceTargetAt(ghost f: Frame, k: nat, env: Env) returns (ok: bool)
      requires State() == f && PrimaryInv(f) && k < |f.fb|
      modifies this
      ensures ok ==> ScanForTarget(f, env, k).Some? && State() == ScanForTarget(f, env, k).value
      ensures !ok ==> State() == f && ScanForTarget(f, env, k + 1) == ScanForTarget(f, env, k)
    {
      var L := fbLayers[k];
      ok := false;
      if !layers[L].candidate && UseAsFrameBufferTarget(State(), layers[L].index) {
        ok := AssignPrimaryPlaneHelper(frameBufferTarget.value, layers[L].index, env);
      }
    }

    /** assignPrimaryPlane. */
    method AssignPrimaryPlane(env: Env) returns (ok: bool)
      requires PrimaryInv(State())
      modifies this
      ensures ok <==> PlacePrimary(old(State()), env).Some?
      ensures ok ==> State() == PlacePrimary(old(State()), env).value
      ensures !ok ==> State() == old(State())
    {
      var spriteLayer := FindUnusedSprite();
      var candidates := |zorderConfig|;
      var fbCount := |fbLayers|;
      if candidates == fbCount - 1 && spriteLayer.Some? {
        ok := AssignPrimaryPlaneHelper(spriteLayer.value, -1, env);
      } else if candidates == 0 {
        ok := AssignPrimaryPlaneHelper(frameBufferTarget.value, 0, env);
      } else if candidates == fbCount {
        ok := AttachPlanes(env);
      } else {
        ok := PlaceTargetInFbOrder(env);
      }
    }

    /** assignSpritePlanes(index, planeNumber). */
    method AssignSpritePlanesFrom(index: nat, planeNumber: nat, env: Env) returns (ok: bool)
      requires PhaseInv(State(), SpritePhase, index)
      modifies this
      ensures ok <==> SearchFrom(old(State()), SpritePhase, env, index, planeNumber).Some?
      ensures ok ==> State() == SearchFrom(old(State()), SpritePhase, env, index, planeNumber).value
      ensures !ok ==> State() == old(State())
      decreases Rank(SpritePhase), 1, planeNumber, |spriteCandidates| - index + 3
    {
      if planeNumber == 0 {
        SpritePhaseHandsOver(State(), index);
        ok := AssignPrimaryPlane(env);
      } else {
        ok := TryCandidates(SpritePhase, index, planeNumber, env);
      }
    }

    /** One iteration of the loop of assignSpritePlanes(index, planeNumber): candidate i
        takes a record and the remaining planes are searched above it; on failure the
        record is removed again. */
    method TrySpriteCandidate(ghost f: Frame, ghost outcome: Option<Frame>, index: nat, i: nat, planeNumber: nat, env: Env)
      returns (ok: bool)
      requires State() == f && PhaseInv(f, SpritePhase, index) && planeNumber >= 1
      requires index <= i <= |f.sprites| - planeNumber
      requires SearchTry(f, SpritePhase, env, i, planeNumber) == outcome
      modifies this
      ensures ok ==> outcome.Some? && State() == outcome.value
      ensures !ok ==> State() == f && SearchTry(f, SpritePhase, env, i + 1, planeNumber) == outcome
      decreases Rank(SpritePhase), 1, planeNumber, 0
    {
      SearchTryStep(f, SpritePhase, env, i, planeNumber);
      AddCandidateKeepsPhaseInv(f, SpritePhase, index, i);
      ghost var g := AddCandidate(f, SpritePhase, i);
      var zlayer := AddZOrderLayer(PlaneSprite, spriteCandidates[i], -1);
      assert State() == g;
      ok := AssignSpritePlanesFrom(i + 1, planeNumber - 1, env);
      assert ok <==> SearchFrom(g, SpritePhase, env, i + 1, planeNumber - 1).Some?;
      if !ok {
        RemoveZOrderLayer(zlayer);
        RemoveUndoesAdd(f, PlaneSprite, f.sprites[i], -1);
      }
    }

    /** assignSpritePlanes(). */
    method AssignSpritePlanes(env: Env) returns (ok: bool)
      requires PhaseInv(State(), SpritePhase, 0)
      modifies this
      ensures ok <==> SearchTop(old(State()), SpritePhase, env).Some?
      ensures ok ==> State() == SearchTop(old(State()), SpritePhase, env).value
      ensures !ok ==> State() == old(State())
      decreases Rank(SpritePhase), 3, 0, 0
    {
      var spriteCount := |spriteCandidates|;
      if spriteCount == 0 {
        SpritePhaseHandsOver(State(), 0);
        ok := AssignPrimaryPlane(env);
        return;
      }
      var planeNumber := env.freePlanes(PlaneSprite);
      if planeNumber == 0 {
        SpritePhaseHandsOver(State(), 0);
        ok := AssignPrimaryPlane(env);
        return;
      }
      if planeNumber > spriteCount {
        planeNumber := spriteCount;
      }
      ghost var f0 := State();
      var i: int := planeNumber;
      while i >= 0
        invariant -1 <= i <= planeNumber && State() == f0
        invariant planeNumber == PlaneBudget(f0, SpritePhase, env)
        invariant SearchDescend(f0, SpritePhase, env, planeNumber)
               == if i >= 0 then SearchDescend(f0, SpritePhase, env, i) else None
      {
        ok := AssignSpritePlanesFrom(0, i, env);
        if ok {
          return;
        }
        if |overlayCandidates| == 0 {
          StartOfSearchHasEmptyConfig(State(), SpritePhase);
        }
        assert |overlayCandidates| == 0 ==> zorderConfig == [];
        i := i - 1;
      }
      ok := false;
    }

    /** assignOverlayPlanes(index, planeNumber). */
    method AssignOverlayPlanesFrom(index: nat, planeNumber: nat, env: Env) returns (ok: bool)
      requires PhaseInv(State(), OverlayPhase, index)
      modifies this
      ensures ok <==> SearchFrom(old(State()), OverlayPhase, env, index, planeNumber).Some?
      ensures ok ==> State() == SearchFrom(old(State()), OverlayPhase, env, index, planeNumber).value
      ensures !ok ==> State() == old(State())
      decreases Rank(OverlayPhase), 1, planeNumber, |overlayCandidates| - index + 3
    {
      if planeNumber == 0 {
        OverlayPhaseHandsOver(State(), index);
        ok := AssignSpritePlanes(env);
      } else {
        ok := TryCandidates(OverlayPhase, index, planeNumber, env);
      }
    }

    /** The loop of assignOverlayPlanes(index, planeNumber), and the same loop of
        assignSpritePlanes(index, planeNumber) over the sprite candidates: the candidates
        of the phase from position index on are tried in turn while i <= size - planeNumber. */
    method TryCandidates(ph: Phase, index: nat, planeNumber: nat, env: Env) returns (ok: bool)
      requires PhaseInv(State(), ph, index) && planeNumber >= 1
      modifies this
      ensures ok <==> SearchTry(old(State()), ph, env, index, planeNumber).Some?
      ensures ok ==> State() == SearchTry(old(State()), ph, env, index, planeNumber).value
      ensures !ok ==> State() == old(State())
      decreases Rank(ph), 1, planeNumber, |Candidates(State(), ph)| - index + 2
    {
      // The loop relies on the contract of each step and on SearchTryExhausted, never on
      // the body of SearchTry, so that body is kept out of this proof.
      hide SearchTry;
      ghost var f0 := State();
      ghost var outcome := SearchTry(f0, ph, env, index, planeNumber);
      var count := |Candidates(State(), ph)|;
      var i := index;
      while i <= count - planeNumber
        invariant index <= i <= count && State() == f0
        invariant SearchTry(f0, ph, env, i, planeNumber) == outcome
        decreases count - i
      {
        ok := TryCandidate(ph, f0, outcome, index, i, planeNumber, env);
        if ok {
          return;
        }
        i := i + 1;
      }
      SearchTryExhausted(f0, ph, env, i, planeNumber);
      ok := false;
    }

    /** One iteration of that loop, in the phase's own search. */
    method TryCandidate(ph: Phase, ghost f: Frame, ghost outcome: Option<Frame>, index: nat, i: nat, planeNumber: nat, env: Env)
      returns (ok: bool)
      requires State() == f && PhaseInv(f, ph, index) && planeNumber >= 1
      requires index <= i <= |Candidates(f, ph)| - planeNumber
      requires SearchTry(f, ph, env, i, planeNumber) == outcome
      modifies this
      ensures ok ==> outcome.Some? && State() == outcome.value
      ensures !ok ==> State() == f
      ensures !ok ==> SearchTry(f, ph, env, i + 1, planeNumber) == outcome
      decreases Rank(ph), 1, planeNumber, 1
    {
      match ph
      case OverlayPhase =>
        ok := TryOverlayCandidate(f, outcome, index, i, planeNumber, env);
      case SpritePhase =>
        ok := TrySpriteCandidate(f, outcome, index, i, planeNumber, env);
    }

    /** One iteration of the loop of assignOverlayPlanes(index, planeNumber): candidate i
        takes a record and the remaining planes are searched above it; on failure the
        record is removed again. */
    method TryOverlayCandidate(ghost f: Frame, ghost outcome: Option<Frame>, index: nat, i: nat, planeNumber: nat, env: Env)
      returns (ok: bool)
      requires State() == f && PhaseInv(f, OverlayPhase, index) && planeNumber >= 1
      requires index <= i <= |f.overlays| - planeNumber
      requires SearchTry(f, OverlayPhase, env, i, planeNumber) == outcome
      modifies this
      ensures ok ==> outcome.Some? && State() == outcome.value
      ensures !ok ==> State() == f && SearchTry(f, OverlayPhase, env, i + 1, planeNumber) == outcome
      decreases Rank(OverlayPhase), 1, planeNumber, 0
    {
      SearchTryStep(f, OverlayPhase, env, i, planeNumber);
      AddCandidateKeepsPhaseInv(f, OverlayPhase, index, i);
      ghost var g := AddCandidate(f, OverlayPhase, i);
      var zlayer := AddZOrderLayer(PlaneOverlay, overlayCandidates[i], -1);
      assert State() == g;
      ok := AssignOverlayPlanesFrom(i + 1, planeNumber - 1, env);
      assert ok <==> SearchFrom(g, OverlayPhase, env, i + 1, planeNumber - 1).Some?;
      if !ok {
        RemoveZOrderLayer(zlayer);
        RemoveUndoesAdd(f, PlaneOverlay, f.overlays[i], -1);
      }
    }

    /** assignOverlayPlanes(), the plane search allocatePlanesV2 runs. */
    method AssignOverlayPlanes(env: Env) returns (ok: bool)
      requires PhaseInv(State(), OverlayPhase, 0)
      modifies this
      ensures ok <==> SearchTop(old(State()), OverlayPhase, env).Some?
      ensures ok ==> State() == SearchTop(old(State()), OverlayPhase, env).value
      ensures !ok ==> State() == old(State())
      decreases Rank(OverlayPhase), 3, 0, 0
    {
      var overlayCount := |overlayCandidates|;
      if overlayCount == 0 {
        OverlayPhaseHandsOver(State(), 0);
        ok := AssignSpritePlanes(env);
        return;
      }
      var planeNumber := env.freePlanes(PlaneOverlay);
      if planeNumber == 0 {
        OverlayPhaseHandsOver(State(), 0);
        ok := AssignSpritePlanes(env);
        return;
      }
      if planeNumber > overlayCount {
        planeNumber := overlayCount;
      }
      ghost var f0 := State();
      var i: int := planeNumber;
      while i >= 0
        invariant -1 <= i <= planeNumber && State() == f0
        invariant planeNumber == PlaneBudget(f0, OverlayPhase, env)
        invariant SearchDescend(f0, OverlayPhase, env, planeNumber)
               == if i >= 0 then SearchDescend(f0, OverlayPhase, env, i) else None
      {
        ok := AssignOverlayPlanesFrom(0, i, env);
        if ok {
          return;
        }
        StartOfSearchHasEmptyConfig(State(), OverlayPhase);
        assert zorderConfig == [];
        i := i - 1;
      }
      ok := false;
    }

    /** The constructor: an empty list, then initialize. */
    constructor (list: Option<seq<RawLayer>>, env: Env)
      requires list.Some? ==> FbIndexable(list.value)
      ensures State() == Initialized(list, env).1
    {
      layerCount := 0;
      layers := [];
      fbLayers := [];
      spriteCandidates := [];
      overlayCandidates := [];
      zorderConfig := [];
      frameBufferTarget := None;
      new;
      var initialized := Initialize(list, env);
    }

    /** initialize: classifies every layer of the list, then runs the plane search
        (allocatePlanesV2), whose own outcome does not change the result. */
    method Initialize(list: Option<seq<RawLayer>>, env: Env) returns (ok: bool)
      requires State() == EmptyFrame
      requires list.Some? ==> FbIndexable(list.value)
      modifies this
      ensures (ok, State()) == Initialized(list, env)
    {
      if list.None? || |list.value| == 0 {
        return false;
      }
      var raws := list.value;
      var valid := ClassifyLayers(raws, env);
      if !valid {
        return false;
      }
      if frameBufferTarget.None? {
        return false;
      }
      ClassifiedIsSearchable(raws, env);
      var planesAssigned := AssignOverlayPlanes(env);
      ok := true;
    }

    /** The loop of initialize over the list; on a layer of unknown composition type the
        list is deinitialized. */
    method ClassifyLayers(raws: seq<RawLayer>, env: Env) returns (valid: bool)
      requires State() == EmptyFrame
      modifies this
      ensures valid ==> ClassifyPrefix(raws, |raws|, env) == Some(State())
      ensures !valid ==> ClassifyPrefix(raws, |raws|, env).None? && State() == EmptyFrame
    {
      layerCount := |raws|;
      var i := 0;
      while i < layerCount
        invariant 0 <= i <= |raws| && layerCount == |raws| && |layers| == i
        invariant ClassifyPrefix(raws, i, env) == Some(State())
      {
        valid := AddLayer(i, raws[i], env);
        if !valid {
          ClassifyPrefixMeaning(raws, i + 1, env);
          ClassifyPrefixMeaning(raws, |raws|, env);
          var reclaimed := Deinitialize();
          return;
        }
        i := i + 1;
      }
      valid := true;
    }

    /** One iteration of the loop of initialize: the layer at index i gets its HwcLayer
        and joins the vectors its composition type and the plane checks put it in; an
        unknown composition type is refused with nothing changed. */
    method AddLayer(i: nat, raw: RawLayer, env: Env) returns (valid: bool)
      requires i == |layers|
      modifies this
      ensures valid <==> ClassifyStep(old(State()), raw, env).Some?
      ensures valid ==> State() == ClassifyStep(old(State()), raw, env).value
      ensures !valid ==> State() == old(State())
    {
      var hwcLayer := Layer(i, LayerFb, false, raw, None);
      if raw.composition == FramebufferTarget {
        hwcLayer := hwcLayer.(kind := LayerFramebufferTarget);
        frameBufferTarget := Some(i);
      } else if raw.composition == Overlay {
        hwcLayer := hwcLayer.(kind := LayerSkipped);
      } else if raw.composition == ForceFramebuffer {
        hwcLayer := hwcLayer.(kind := LayerForceFb, raw := raw.(composition := Framebuffer));
        fbLayers := fbLayers + [i];
      } else if raw.composition == Framebuffer {
        fbLayers := fbLayers + [i];
        if CheckSupported(PlaneSprite, hwcLayer.kind, hwcLayer.raw, env.caps) == Supported {
          spriteCandidates := spriteCandidates + [i];
        } else if env.overlayAllowed && CheckSupported(PlaneOverlay, hwcLayer.kind, hwcLayer.raw, env.caps) == Supported {
          overlayCandidates := overlayCandidates + [i];
        }
      } else {
        return false;
      }
      layers := layers + [hwcLayer];
      valid := true;
    }

    /** getPlane. */
    function GetPlane(index: nat): (p: Option<Attached>)
      reads this
      requires Indexed(State())
      ensures p.Some? <==> (index < |layers| && !IsFbKind(layers[index].kind) && layers[index].kind != LayerSkipped
                            && layers[index].raw.handle != 0 && layers[index].plane.Some?)
      ensures p.Some? ==> p == layers[index].plane
      ensures (index < |layers| && !IsFbKind(layers[index].kind) && layers[index].kind != LayerSkipped
               && layers[index].raw.handle != 0) ==> p == layers[index].plane
    {
      PlaneAt(State(), index)
    }
  }
}
