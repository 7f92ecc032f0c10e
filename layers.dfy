/** The per-layer records of the layer list, the plane-manager oracles and the
    capability check that decides whether a layer may go on a plane type. */
module Layers {
  import opened Geometry

  datatype Option<T> = None | Some(value: T)

  /** compositionType of hwc_layer_1_t, as the layer list reads and writes it. Values
      the list does not recognise (HWC_BACKGROUND, vendor values) are OtherType. */
  datatype Composition =
    | Framebuffer          // HWC_FRAMEBUFFER
    | Overlay              // HWC_OVERLAY
    | ForceFramebuffer     // HWC_FORCE_FRAMEBUFFER
    | FramebufferTarget    // HWC_FRAMEBUFFER_TARGET
    | OtherType(code: int)

  /** The type tag of an HwcLayer. */
  datatype LayerType = LayerFb | LayerForceFb | LayerOverlay | LayerFramebufferTarget | LayerSkipped

  /** DisplayPlane types. */
  datatype PlaneType = PlaneSprite | PlaneOverlay | PlanePrimary

  /** The five axes along which PlaneCapabilities judges a layer. */
  datatype Axis = Transform | Format | Size | Blending | Scaling

  type PlaneId = nat

  /** The fields of one hwc_layer_1_t (and of its buffer) the layer list uses.
      `updated` is what HwcLayer::isUpdated reports after HwcLayer::update. */
  datatype RawLayer = RawLayer(
    composition: Composition,
    skip: bool,            // flags & HWC_SKIP_LAYER
    handle: nat,           // buffer handle, 0 when invalid
    usage: bv32,           // gralloc usage bits of the buffer
    frame: Rect,           // displayFrame
    updated: bool)

  /** A plane attached to a layer, with the z-order the plane was given. */
  datatype Attached = Attached(plane: PlaneId, planeType: PlaneType, zorder: nat)

  /** An HwcLayer: its index in the list (also its z-order), its type tag,
      mPlaneCandidate, the layer it wraps and the plane attached to it. */
  datatype Layer = Layer(index: nat, kind: LayerType, candidate: bool, raw: RawLayer, plane: Option<Attached>)

  /** A ZOrderLayer record of the z-order configuration; the layer is named by its index. */
  datatype ZOrderLayer = ZOrderLayer(planeType: PlaneType, layer: nat, zorder: int)

  /** The collaborators the layer list consults: PlaneCapabilities, the display
      analyzer's overlay permission, and DisplayPlaneManager (free planes, z-order
      validation, plane assignment and the plane it picks for the record at a position). */
  datatype Env = Env(
    caps: (PlaneType, Axis, RawLayer) -> bool,
    overlayAllowed: bool,
    freePlanes: PlaneType -> nat,
    validZOrder: seq<ZOrderLayer> -> bool,
    assignPlanes: seq<ZOrderLayer> -> bool,
    planeFor: (seq<ZOrderLayer>, nat) -> PlaneId)

  const GRALLOC_USAGE_HW_COMPOSER: bv32 := 0x800

  /** Why checkSupported turned a layer down. */
  datatype Reason =
    | ForcedToFramebuffer
    | SkipFlag
    | NullHandle
    | NotComposerUsage
    | Unsupported(axis: Axis)

  datatype Verdict = Supported | Rejected(reason: Reason)

  /** The usage test exactly as written: `!usage & GRALLOC_USAGE_HW_COMPOSER`. The
      logical not binds first and yields 0 or 1, and neither has bit 0x800 set. */
  predicate UsageRejectsAsWritten(usage: bv32)
  {
    var notUsage: bv32 := if usage == 0 then 1 else 0;
    notUsage & GRALLOC_USAGE_HW_COMPOSER != 0
  }

  /** The test the comment "check usage" evidently means: the buffer lacks the composer bit. */
  predicate UsageRejectsIntended(usage: bv32)
  {
    usage & GRALLOC_USAGE_HW_COMPOSER == 0
  }

  /** HwcLayerList::checkSupported, in its fixed order, stopping at the first failing check. */
  function CheckSupported(planeType: PlaneType, kind: LayerType, raw: RawLayer,
                          caps: (PlaneType, Axis, RawLayer) -> bool): (v: Verdict)
    ensures v.Rejected? ==> !Passes(v.reason, planeType, kind, raw, caps)
    ensures v == Supported ==>
      kind != LayerForceFb && !raw.skip && raw.handle != 0 && forall axis :: caps(planeType, axis, raw)
  {
    if kind == LayerForceFb then Rejected(ForcedToFramebuffer)
    else if raw.skip then Rejected(SkipFlag)
    else if raw.handle == 0 then Rejected(NullHandle)
    else if UsageRejectsAsWritten(raw.usage) then Rejected(NotComposerUsage)
    else if !caps(planeType, Transform, raw) then Rejected(Unsupported(Transform))
    else if !caps(planeType, Format, raw) then Rejected(Unsupported(Format))
    else if !caps(planeType, Size, raw) then Rejected(Unsupported(Size))
    else if !caps(planeType, Blending, raw) then Rejected(Unsupported(Blending))
    else if !caps(planeType, Scaling, raw) then Rejected(Unsupported(Scaling))
    else
      EveryAxisChecked(planeType, raw, caps);
      Supported
  }

  /** The five capability checks cover every axis. */
  lemma EveryAxisChecked(planeType: PlaneType, raw: RawLayer, caps: (PlaneType, Axis, RawLayer) -> bool)
    requires caps(planeType, Transform, raw) && caps(planeType, Format, raw) && caps(planeType, Size, raw)
    requires caps(planeType, Blending, raw) && caps(planeType, Scaling, raw)
    ensures forall axis :: caps(planeType, axis, raw)
  {
    forall axis ensures caps(planeType, axis, raw) {
      match axis
      case Transform =>
      case Format =>
      case Size =>
      case Blending =>
      case Scaling =>
    }
  }

  /** The checks in the order checkSupported makes them. */
  const CheckOrder: seq<Reason> := [ForcedToFramebuffer, SkipFlag, NullHandle, NotComposerUsage,
    Unsupported(Transform), Unsupported(Format), Unsupported(Size), Unsupported(Blending),
    Unsupported(Scaling)]

  /** The layer passes the single check named by `check`. */
  predicate Passes(check: Reason, planeType: PlaneType, kind: LayerType, raw: RawLayer,
                   caps: (PlaneType, Axis, RawLayer) -> bool)
  {
    match check
    case ForcedToFramebuffer => kind != LayerForceFb
    case SkipFlag => !raw.skip
    case NullHandle => raw.handle != 0
    case NotComposerUsage => !UsageRejectsAsWritten(raw.usage)
    case Unsupported(axis) => caps(planeType, axis, raw)
  }

  /** checkSupported accepts exactly when every check passes, and when it rejects, the
      reason is the first failing check in the fixed order. */
  lemma CheckSupportedFirstFailure(planeType: PlaneType, kind: LayerType, raw: RawLayer,
                                   caps: (PlaneType, Axis, RawLayer) -> bool)
    ensures CheckSupported(planeType, kind, raw, caps) == Supported <==>
            forall k :: 0 <= k < |CheckOrder| ==> Passes(CheckOrder[k], planeType, kind, raw, caps)
    ensures CheckSupported(planeType, kind, raw, caps).Rejected? ==>
            exists k :: 0 <= k < |CheckOrder| && CheckOrder[k] == CheckSupported(planeType, kind, raw, caps).reason
              && !Passes(CheckOrder[k], planeType, kind, raw, caps)
              && forall j :: 0 <= j < k ==> Passes(CheckOrder[j], planeType, kind, raw, caps)
  {
    var k := FirstFailing(planeType, kind, raw, caps);
    PassesBeforeFirstFailing(planeType, kind, raw, caps);
    if k < 9 {
      assert !Passes(CheckOrder[k], planeType, kind, raw, caps);
    }
  }

  /** The position in CheckOrder of the first check the layer fails, 9 when it passes
      them all. */
  function FirstFailing(planeType: PlaneType, kind: LayerType, raw: RawLayer,
                        caps: (PlaneType, Axis, RawLayer) -> bool): (k: nat)
    ensures k <= 9
    ensures k < 9 ==> CheckSupported(planeType, kind, raw, caps) == Rejected(CheckOrder[k])
    ensures k == 9 ==> CheckSupported(planeType, kind, raw, caps) == Supported
  {
    if kind == LayerForceFb then 0
    else if raw.skip then 1
    else if raw.handle == 0 then 2
    else if UsageRejectsAsWritten(raw.usage) then 3
    else if !caps(planeType, Transform, raw) then 4
    else if !caps(planeType, Format, raw) then 5
    else if !caps(planeType, Size, raw) then 6
    else if !caps(planeType, Blending, raw) then 7
    else if !caps(planeType, Scaling, raw) then 8
    else 9
  }

  lemma PassesBeforeFirstFailing(planeType: PlaneType, kind: LayerType, raw: RawLayer,
                                 caps: (PlaneType, Axis, RawLayer) -> bool)
    ensures forall j :: 0 <= j < FirstFailing(planeType, kind, raw, caps) ==> Passes(CheckOrder[j], planeType, kind, raw, caps)
  {
    var k := FirstFailing(planeType, kind, raw, caps);
    forall j | 0 <= j < k ensures Passes(CheckOrder[j], planeType, kind, raw, caps) {
      if j == 0 {
      } else if j == 1 {
      } else if j == 2 {
      } else if j == 3 {
      } else if j == 4 {
      } else if j == 5 {
      } else if j == 6 {
      } else if j == 7 {
      } else {
        assert j == 8;
      }
    }
  }

  /** The usage check as written never turns a layer down. */
  lemma UsageCheckNeverRejects(planeType: PlaneType, kind: LayerType, raw: RawLayer,
                               caps: (PlaneType, Axis, RawLayer) -> bool)
    ensures forall usage: bv32 :: !UsageRejectsAsWritten(usage)
    ensures CheckSupported(planeType, kind, raw, caps) != Rejected(NotComposerUsage)
  {
    forall usage: bv32 ensures !UsageRejectsAsWritten(usage) {
      var notUsage: bv32 := if usage == 0 then 1 else 0;
      assert notUsage & GRALLOC_USAGE_HW_COMPOSER == 0;
    }
  }

  /** A buffer without the composer usage bit passes the check as written, though the
      intended test would reject it. */
  lemma UsageCheckMissesNonComposerBuffer()
    ensures UsageRejectsIntended(0) && !UsageRejectsAsWritten(0)
  {
  }
}
