/** The classification loop of initialize: each layer of the incoming list becomes an
    HwcLayer of a type fixed by its composition type and joins mFBLayers and at most one of
    the candidate vectors; then initialize runs the plane search. */
module Classify {
  import opened Layers
  import opened ZOrder
  import opened Frames
  import opened Search
  import opened SearchProps

  /** The vectors a layer of the incoming list may join. */
  datatype Role = FbRole | SpriteRole | OverlayRole

  /** Whether a layer joins mFBLayers, mSpriteCandidates or mOverlayCandidates: FB and
      forced-FB layers join mFBLayers; an FB layer is a sprite candidate when a sprite
      plane supports it, and otherwise an overlay candidate when overlays are allowed and
      an overlay plane supports it. */
  predicate Plays(role: Role, raw: RawLayer, env: Env)
  {
    match role
    case FbRole => raw.composition == Framebuffer || raw.composition == ForceFramebuffer
    case SpriteRole =>
      raw.composition == Framebuffer && CheckSupported(PlaneSprite, LayerFb, raw, env.caps) == Supported
    case OverlayRole =>
      && raw.composition == Framebuffer
      && CheckSupported(PlaneSprite, LayerFb, raw, env.caps) != Supported
      && env.overlayAllowed
      && CheckSupported(PlaneOverlay, LayerFb, raw, env.caps) == Supported
  }

  /** The indices among the first n layers that play the role, in list order. */
  function IndicesWhere(raws: seq<RawLayer>, n: nat, role: Role, env: Env): (s: seq<nat>)
    requires n <= |raws|
    ensures forall k :: 0 <= k < |s| ==> s[k] < n
  {
    if n == 0 then []
    else IndicesWhere(raws, n - 1, role, env) + (if Plays(role, raws[n - 1], env) then [n - 1] else [])
  }

  lemma IndicesWhereMeaning(raws: seq<RawLayer>, n: nat, role: Role, env: Env)
    requires n <= |raws|
    ensures forall i :: i in IndicesWhere(raws, n, role, env) <==> 0 <= i < n && Plays(role, raws[i], env)
    ensures Increasing(IndicesWhere(raws, n, role, env))
    ensures (forall i :: 0 <= i < n ==> Plays(role, raws[i], env)) ==> |IndicesWhere(raws, n, role, env)| == n
  {
    IndicesWhereMembers(raws, n, role, env);
    IndicesWhereIncreasing(raws, n, role, env);
    IndicesWhereAll(raws, n, role, env);
  }

  lemma {:induction false} IndicesWhereMembers(raws: seq<RawLayer>, n: nat, role: Role, env: Env)
    requires n <= |raws|
    ensures forall i :: i in IndicesWhere(raws, n, role, env) <==> 0 <= i < n && Plays(role, raws[i], env)
  {
    if n > 0 {
      IndicesWhereMembers(raws, n - 1, role, env);
      var prev := IndicesWhere(raws, n - 1, role, env);
      var last: seq<nat> := if Plays(role, raws[n - 1], env) then [n - 1] else [];
      var s := IndicesWhere(raws, n, role, env);
      assert s == prev + last;
      forall i ensures i in s <==> 0 <= i < n && Plays(role, raws[i], env) {
        assert i in s <==> i in prev || i in last;
      }
    }
  }

  lemma {:induction false} IndicesWhereIncreasing(raws: seq<RawLayer>, n: nat, role: Role, env: Env)
    requires n <= |raws|
    ensures Increasing(IndicesWhere(raws, n, role, env))
  {
    if n > 0 {
      IndicesWhereIncreasing(raws, n - 1, role, env);
      var prev := IndicesWhere(raws, n - 1, role, env);
      var last: seq<nat> := if Plays(role, raws[n - 1], env) then [n - 1] else [];
      var s := IndicesWhere(raws, n, role, env);
      assert s == prev + last;
      forall a, b | 0 <= a < b < |s| ensures s[a] < s[b] {
        assert s[a] == prev[a];
        if b < |prev| {
          assert s[b] == prev[b];
        } else {
          assert s[b] == n - 1 && prev[a] < n - 1;
        }
      }
    }
  }

  lemma {:induction false} IndicesWhereAll(raws: seq<RawLayer>, n: nat, role: Role, env: Env)
    requires n <= |raws|
    ensures (forall i :: 0 <= i < n ==> Plays(role, raws[i], env)) ==> |IndicesWhere(raws, n, role, env)| == n
  {
    if n > 0 {
      IndicesWhereAll(raws, n - 1, role, env);
    }
  }

  /** The HwcLayer type a known composition type gives. */
  function KindOf(c: Composition): LayerType
    requires !c.OtherType?
  {
    match c
    case FramebufferTarget => LayerFramebufferTarget
    case Overlay => LayerSkipped
    case ForceFramebuffer => LayerForceFb
    case Framebuffer => LayerFb
  }

  /** The HwcLayer made for the layer at index i: a forced-FB layer has its composition
      type rewritten to HWC_FRAMEBUFFER. */
  function LayerFor(i: nat, raw: RawLayer): Layer
    requires !raw.composition.OtherType?
  {
    var kept := if raw.composition == ForceFramebuffer then raw.(composition := Framebuffer) else raw;
    Layer(i, KindOf(raw.composition), false, kept, None)
  }

  /** The last framebuffer target among the first n layers: mFrameBufferTarget is
      overwritten by each one the loop meets. */
  function LastTarget(raws: seq<RawLayer>, n: nat): (t: Option<nat>)
    requires n <= |raws|
    ensures t.Some? ==> t.value < n && raws[t.value].composition == FramebufferTarget
    ensures t.Some? ==> forall j :: t.value < j < n ==> raws[j].composition != FramebufferTarget
    ensures t.None? <==> forall j :: 0 <= j < n ==> raws[j].composition != FramebufferTarget
  {
    if n == 0 then None
    else if raws[n - 1].composition == FramebufferTarget then Some(n - 1)
    else LastTarget(raws, n - 1)
  }

  /** One iteration of the loop of initialize, for the layer at index |f.layers|; None
      for a composition type the list does not know. */
  function ClassifyStep(f: Frame, raw: RawLayer, env: Env): (r: Option<Frame>)
    ensures r.None? <==> raw.composition.OtherType?
    ensures r.Some? ==> |r.value.layers| == |f.layers| + 1 && r.value.count == f.count && r.value.config == f.config
  {
    var i := |f.layers|;
    match raw.composition
    case FramebufferTarget =>
      Some(f.(layers := f.layers + [LayerFor(i, raw)], fbt := Some(i)))
    case Overlay =>
      Some(f.(layers := f.layers + [LayerFor(i, raw)]))
    case ForceFramebuffer =>
      Some(f.(layers := f.layers + [LayerFor(i, raw)], fb := f.fb + [i]))
    case Framebuffer =>
      var g := f.(layers := f.layers + [LayerFor(i, raw)], fb := f.fb + [i]);
      if CheckSupported(PlaneSprite, LayerFb, raw, env.caps) == Supported then
        Some(g.(sprites := g.sprites + [i]))
      else if env.overlayAllowed && CheckSupported(PlaneOverlay, LayerFb, raw, env.caps) == Supported then
        Some(g.(overlays := g.overlays + [i]))
      else Some(g)
    case OtherType(_) => None
  }

  /** The state before the loop: mLayerCount is already the list's size. */
  function StartFrame(raws: seq<RawLayer>): Frame
  {
    Frame([], [], [], [], [], None, |raws|)
  }

  /** The first n iterations of the loop of initialize; None once one of them meets an
      unknown composition type. */
  function ClassifyPrefix(raws: seq<RawLayer>, n: nat, env: Env): (r: Option<Frame>)
    requires n <= |raws|
    ensures r.Some? ==> |r.value.layers| == n && r.value.count == |raws| && r.value.config == []
  {
    if n == 0 then Some(StartFrame(raws))
    else
      match ClassifyPrefix(raws, n - 1, env)
      case None => None
      case Some(f) => ClassifyStep(f, raws[n - 1], env)
  }

  /** The state after classifying the first n layers, stated field by field. */
  predicate WellClassified(f: Frame, raws: seq<RawLayer>, n: nat, env: Env)
    requires n <= |raws|
  {
    && |f.layers| == n && f.count == |raws| && f.config == []
    && (forall i :: 0 <= i < n ==> !raws[i].composition.OtherType? && f.layers[i] == LayerFor(i, raws[i]))
    && f.fb == IndicesWhere(raws, n, FbRole, env)
    && f.sprites == IndicesWhere(raws, n, SpriteRole, env)
    && f.overlays == IndicesWhere(raws, n, OverlayRole, env)
    && f.fbt == LastTarget(raws, n)
  }

  /** The loop stops at the first unknown composition type, and otherwise leaves exactly
      the state WellClassified describes. */
  lemma {:induction false} ClassifyPrefixMeaning(raws: seq<RawLayer>, n: nat, env: Env)
    requires n <= |raws|
    ensures ClassifyPrefix(raws, n, env).None? <==> exists j :: 0 <= j < n && raws[j].composition.OtherType?
    ensures ClassifyPrefix(raws, n, env).Some? ==> WellClassified(ClassifyPrefix(raws, n, env).value, raws, n, env)
  {
    if n > 0 {
      ClassifyPrefixMeaning(raws, n - 1, env);
      var prev := ClassifyPrefix(raws, n - 1, env);
      if prev.Some? && !raws[n - 1].composition.OtherType? {
        ClassifyStepMeaning(prev.value, raws, n, env);
      }
    }
  }

  /** One iteration extends WellClassified by one layer. */
  lemma ClassifyStepMeaning(f: Frame, raws: seq<RawLayer>, n: nat, env: Env)
    requires 0 < n <= |raws| && WellClassified(f, raws, n - 1, env)
    requires !raws[n - 1].composition.OtherType?
    ensures ClassifyStep(f, raws[n - 1], env).Some?
    ensures WellClassified(ClassifyStep(f, raws[n - 1], env).value, raws, n, env)
  {
    var raw := raws[n - 1];
    var g := ClassifyStep(f, raw, env).value;
    ClassifyStepVectors(f, raw, env);
    assert g.config == [] && g.count == |raws|;
    forall i | 0 <= i < n ensures !raws[i].composition.OtherType? && g.layers[i] == LayerFor(i, raws[i]) {
      if i < n - 1 {
        assert g.layers[i] == f.layers[i];
      }
    }
    assert g.fb == IndicesWhere(raws, n, FbRole, env);
    assert g.sprites == IndicesWhere(raws, n, SpriteRole, env);
    assert g.overlays == IndicesWhere(raws, n, OverlayRole, env);
    assert g.fbt == LastTarget(raws, n);
  }

  /** One iteration appends the layer, and its index to each vector whose role it plays. */
  lemma ClassifyStepVectors(f: Frame, raw: RawLayer, env: Env)
    requires !raw.composition.OtherType?
    ensures var g := ClassifyStep(f, raw, env).value;
      var i := |f.layers|;
      && g.layers == f.layers + [LayerFor(i, raw)] && g.config == f.config && g.count == f.count
      && g.fb == f.fb + (if Plays(FbRole, raw, env) then [i] else [])
      && g.sprites == f.sprites + (if Plays(SpriteRole, raw, env) then [i] else [])
      && g.overlays == f.overlays + (if Plays(OverlayRole, raw, env) then [i] else [])
      && g.fbt == if raw.composition == FramebufferTarget then Some(i) else f.fbt
  {
  }

  /** What initialize promises of a successful classification: mFBLayers holds exactly
      the FB and forced-FB layers (so neither skipped nor framebuffer-target layers), no
      layer is a candidate for both plane types, and forced-FB layers are candidates for
      neither. */
  lemma ClassificationSeparates(raws: seq<RawLayer>, env: Env)
    requires ClassifyPrefix(raws, |raws|, env).Some?
    ensures var f := ClassifyPrefix(raws, |raws|, env).value;
      && |f.layers| == |raws|
      && (forall L :: L in f.fb <==> 0 <= L < |raws| && (f.layers[L].kind == LayerFb || f.layers[L].kind == LayerForceFb))
      && (forall L :: L in f.sprites ==> L !in f.overlays)
      && (forall L :: 0 <= L < |raws| && f.layers[L].kind == LayerForceFb ==> L !in f.sprites && L !in f.overlays)
      && (forall L :: 0 <= L < |raws| && f.layers[L].kind == LayerFramebufferTarget ==> L !in f.fb)
      && (forall L :: 0 <= L < |raws| && f.layers[L].kind == LayerSkipped ==> L !in f.fb)
  {
    var n := |raws|;
    ClassifyPrefixMeaning(raws, n, env);
    var f := ClassifyPrefix(raws, n, env).value;
    IndicesWhereMembers(raws, n, FbRole, env);
    IndicesWhereMembers(raws, n, SpriteRole, env);
    IndicesWhereMembers(raws, n, OverlayRole, env);
    forall L | 0 <= L < n ensures f.layers[L].kind == KindOf(raws[L].composition) {
      assert f.layers[L] == LayerFor(L, raws[L]);
    }
  }

  /** The shape of list for which useAsFrameBufferTarget reads mFBLayers in range: every
      layer but the last is an FB or forced-FB layer (or one of an unknown type, which
      ends initialize before the search). */
  predicate FbIndexable(raws: seq<RawLayer>)
  {
    forall i :: 0 <= i < |raws| - 1 ==>
      raws[i].composition != Overlay && raws[i].composition != FramebufferTarget
  }

  /** On such a list, a classification that found a framebuffer target hands the search
      a state it can work on, with the invariant the search keeps. */
  lemma ClassifiedIsSearchable(raws: seq<RawLayer>, env: Env)
    requires FbIndexable(raws)
    requires ClassifyPrefix(raws, |raws|, env).Some? && ClassifyPrefix(raws, |raws|, env).value.fbt.Some?
    ensures var f := ClassifyPrefix(raws, |raws|, env).value;
      Ready(f) && f.fbt == Some(|raws| - 1) && PhaseInv(f, OverlayPhase, 0)
  {
    ClassifyPrefixMeaning(raws, |raws|, env);
    WellClassifiedIsSearchable(ClassifyPrefix(raws, |raws|, env).value, raws, env);
  }

  lemma WellClassifiedIsReady(f: Frame, raws: seq<RawLayer>, env: Env)
    requires FbIndexable(raws) && WellClassified(f, raws, |raws|, env) && f.fbt.Some?
    ensures Ready(f) && f.fbt == Some(|raws| - 1)
  {
    var n := |raws|;
    var t := f.fbt.value;
    assert raws[t].composition == FramebufferTarget;
    assert t == n - 1;
    assert f.fb == IndicesWhere(raws, n - 1, FbRole, env);
    forall i | 0 <= i < n - 1 ensures Plays(FbRole, raws[i], env) {
      assert !raws[i].composition.OtherType?;
    }
    IndicesWhereAll(raws, n - 1, FbRole, env);
    forall i | 0 <= i < |f.layers| ensures f.layers[i].index == i {
      assert f.layers[i] == LayerFor(i, raws[i]);
    }
  }

  lemma WellClassifiedIsSearchable(f: Frame, raws: seq<RawLayer>, env: Env)
    requires FbIndexable(raws) && WellClassified(f, raws, |raws|, env) && f.fbt.Some?
    ensures Ready(f) && f.fbt == Some(|raws| - 1) && PhaseInv(f, OverlayPhase, 0)
  {
    var n := |raws|;
    WellClassifiedIsReady(f, raws, env);
    IndicesWhereMeaning(raws, n, SpriteRole, env);
    IndicesWhereMeaning(raws, n, OverlayRole, env);
    assert Classified(f);
    forall L | 0 <= L < |f.layers| ensures !f.layers[L].candidate {
      assert f.layers[L] == LayerFor(L, raws[L]);
    }
    NoLayersMeansEmpty(f.config);
  }

  /** The outcome of initialize on the incoming list (None for a null list): whether it
      succeeds, and the state it leaves. A null or empty list fails and leaves the empty
      state; an unknown composition type deinitializes; a list without framebuffer target
      fails with the layers classified; otherwise the search runs and initialize succeeds
      whatever its outcome, keeping the search's result when it finds one. */
  function Initialized(list: Option<seq<RawLayer>>, env: Env): (r: (bool, Frame))
    requires list.Some? ==> FbIndexable(list.value)
    ensures r.0 <==> (list.Some? && |list.value| > 0
      && (forall j :: 0 <= j < |list.value| ==> !list.value[j].composition.OtherType?)
      && (exists j :: 0 <= j < |list.value| && list.value[j].composition == FramebufferTarget))
    ensures !r.0 && (list.None? || |list.value| == 0) ==> r.1 == EmptyFrame
  {
    if list.None? || |list.value| == 0 then (false, EmptyFrame)
    else
      var raws := list.value;
      ClassifyPrefixMeaning(raws, |raws|, env);
      match ClassifyPrefix(raws, |raws|, env)
      case None => (false, EmptyFrame)
      case Some(f) =>
        if f.fbt.None? then (false, f)
        else
          ClassifiedIsSearchable(raws, env);
          match SearchTop(f, OverlayPhase, env)
          case Some(g) => (true, g)
          case None => (true, f)
  }
}
