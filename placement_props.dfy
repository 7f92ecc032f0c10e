/** What primary placement computes: the effect of assignPrimaryPlaneHelper, the position
    the scan for the framebuffer target's z-order settles on, and the outcome of each of
    the four branches of assignPrimaryPlane. */
module PlacementProps {
  import opened Layers
  import opened ZOrder
  import opened Frames
  import opened Placement
  import opened SearchProps

  /** The configuration assignPrimaryPlaneHelper hands to the plane manager: the current
      one with the primary-plane record for layer L added. */
  function PrimaryConfig(f: Frame, L: nat, zorder: int): seq<ZOrderLayer>
    requires L < |f.layers|
  {
    Insert(f.config, NewRecord(f, PlanePrimary, L, zorder))
  }

  /** assignPrimaryPlaneHelper succeeds exactly when the plane manager accepts that
      configuration and assigns its planes. */
  lemma PlacePrimaryAtSucceeds(f: Frame, env: Env, L: nat, zorder: int)
    requires Indexed(f) && L < |f.layers|
    ensures PlacePrimaryAt(f, env, L, zorder).Some? <==>
      env.validZOrder(PrimaryConfig(f, L, zorder)) && env.assignPlanes(PrimaryConfig(f, L, zorder))
  {
  }

  /** The layer L once the primary plane is attached to it at z-order k: it keeps its
      mPlaneCandidate set, and becomes LAYER_OVERLAY unless it is the framebuffer target. */
  function OnPrimary(f: Frame, env: Env, L: nat, zorder: int, k: nat): Layer
    requires L < |f.layers|
  {
    var layer := f.layers[L].(candidate := true,
      plane := Some(Attached(env.planeFor(PrimaryConfig(f, L, zorder), k), PlanePrimary, k)));
    if f.fbt == Some(L) then layer else layer.(kind := LayerOverlay)
  }

  /** Where the primary-plane record goes: at position k, after every record whose
      z-order is not above its own and before every record whose z-order is. */
  lemma PrimaryRecordPosition(f: Frame, L: nat, zorder: int) returns (k: nat)
    requires Consistent(f) && L < |f.layers|
    ensures k <= |f.config|
    ensures PrimaryConfig(f, L, zorder) == f.config[..k] + [NewRecord(f, PlanePrimary, L, zorder)] + f.config[k..]
    ensures forall j :: 0 <= j < k ==> f.config[j].zorder <= NewRecord(f, PlanePrimary, L, zorder).zorder
    ensures forall j :: k <= j < |f.config| ==> NewRecord(f, PlanePrimary, L, zorder).zorder < f.config[j].zorder
  {
    k := InsertPosition(f.config, NewRecord(f, PlanePrimary, L, zorder));
  }

  /** A successful assignPrimaryPlaneHelper for a layer L that holds no record: the
      record sits at position k, after every record whose z-order is not above its own
      and before every record whose z-order is; L gets the primary plane with z-order k;
      and the configuration ends empty. */
  lemma PlacePrimaryAtLayer(f: Frame, env: Env, L: nat, zorder: int) returns (k: nat)
    requires Consistent(f) && L < |f.layers| && !f.layers[L].candidate
    requires PlacePrimaryAt(f, env, L, zorder).Some?
    ensures k <= |f.config|
    ensures PrimaryConfig(f, L, zorder) == f.config[..k] + [NewRecord(f, PlanePrimary, L, zorder)] + f.config[k..]
    ensures forall j :: 0 <= j < k ==> f.config[j].zorder <= NewRecord(f, PlanePrimary, L, zorder).zorder
    ensures forall j :: k <= j < |f.config| ==> NewRecord(f, PlanePrimary, L, zorder).zorder < f.config[j].zorder
    ensures PlacePrimaryAt(f, env, L, zorder).value.config == []
    ensures PlacePrimaryAt(f, env, L, zorder).value.layers[L] == OnPrimary(f, env, L, zorder, k)
  {
    k := PrimaryRecordPosition(f, L, zorder);
    var h := AddRecord(f, PlanePrimary, L, zorder);
    var c := h.config;
    AddRecordEffect(f, PlanePrimary, L, zorder);
    assert c[k] == NewRecord(f, PlanePrimary, L, zorder);
    CommitPrefixEffect(h, c, |c|, k, env);
  }

  /** ... every layer that is neither L nor named by a record is left as it was ... */
  lemma PlacePrimaryAtKeepsOthers(f: Frame, env: Env, L: nat, zorder: int)
    requires Indexed(f) && L < |f.layers|
    requires PlacePrimaryAt(f, env, L, zorder).Some?
    ensures forall M :: 0 <= M < |f.layers| && M != L && M !in LayersOf(f.config) ==>
      PlacePrimaryAt(f, env, L, zorder).value.layers[M] == f.layers[M]
  {
    var r := NewRecord(f, PlanePrimary, L, zorder);
    var h := AddRecord(f, PlanePrimary, L, zorder);
    var c := h.config;
    InsertContents(f.config, r);
    CommitPrefixLayers(h, c, |c|, env);
    forall M | 0 <= M < |f.layers| && M != L && M !in LayersOf(f.config)
      ensures PlacePrimaryAt(f, env, L, zorder).value.layers[M] == f.layers[M]
    {
      assert M !in LayersOf(c);
      forall j | 0 <= j < |c| ensures c[j].layer != M {
        assert c[j] in c;
      }
      NamesLayerMeaning(c, |c|, M);
    }
  }

  /** Splicing x in at position k moves every element at or after k one place up. */
  lemma SpliceIndex<T>(a: seq<T>, x: T, k: nat, j: nat)
    requires k <= |a| && j < |a|
    ensures (a[..k] + [x] + a[k..])[if j < k then j else j + 1] == a[j]
  {
  }

  /** The record at position j before the primary record is added names a layer other
      than L, and that layer gets its plane as committed at position j' of the new
      configuration. */
  lemma PlacePrimaryAtCommitsOne(f: Frame, env: Env, L: nat, zorder: int, k: nat, j: nat, j': nat)
    requires Consistent(f) && L < |f.layers| && !f.layers[L].candidate
    requires PlacePrimaryAt(f, env, L, zorder).Some?
    requires k <= |f.config| && j < |f.config| && j' == (if j < k then j else j + 1)
    requires PrimaryConfig(f, L, zorder) == f.config[..k] + [NewRecord(f, PlanePrimary, L, zorder)] + f.config[k..]
    ensures PlacePrimaryAt(f, env, L, zorder).value.layers[f.config[j].layer]
         == Committed(f, PrimaryConfig(f, L, zorder), j', env)
  {
    var r := NewRecord(f, PlanePrimary, L, zorder);
    var h := AddRecord(f, PlanePrimary, L, zorder);
    var c := h.config;
    var M := f.config[j].layer;
    assert PlacePrimaryAt(f, env, L, zorder).value.layers == CommitPrefix(h, c, |c|, env).layers;
    assert L !in LayersOf(f.config);
    InsertKeepsDistinct(f.config, r);
    SpliceIndex(f.config, r, k, j);
    assert f.config[j] in f.config;
    assert M != L;
    CommitPrefixEffect(h, c, |c|, j', env);
    assert h.layers[M] == f.layers[M];
  }

  /** ... and the layer of each record already there gets its plane at that record's
      position in the new configuration, one further up when above the primary record. */
  lemma PlacePrimaryAtCommitsOthers(f: Frame, env: Env, L: nat, zorder: int, k: nat)
    requires Consistent(f) && L < |f.layers| && !f.layers[L].candidate
    requires PlacePrimaryAt(f, env, L, zorder).Some?
    requires k <= |f.config|
    requires PrimaryConfig(f, L, zorder) == f.config[..k] + [NewRecord(f, PlanePrimary, L, zorder)] + f.config[k..]
    ensures forall j :: 0 <= j < |f.config| ==>
      PlacePrimaryAt(f, env, L, zorder).value.layers[f.config[j].layer]
        == Committed(f, PrimaryConfig(f, L, zorder), if j < k then j else j + 1, env)
  {
    forall j | 0 <= j < |f.config|
      ensures PlacePrimaryAt(f, env, L, zorder).value.layers[f.config[j].layer]
           == Committed(f, PrimaryConfig(f, L, zorder), if j < k then j else j + 1, env)
    {
      PlacePrimaryAtCommitsOne(f, env, L, zorder, k, j, if j < k then j else j + 1);
    }
  }

  /** mFBLayers[k] may carry the framebuffer target: it holds no record and passes
      useAsFrameBufferTarget. */
  predicate Eligible(f: Frame, k: nat)
    requires Ready(f) && k < |f.fb|
  {
    !f.layers[f.fb[k]].candidate && UseAsFrameBufferTarget(f, f.layers[f.fb[k]].index)
  }

  /** Placing the framebuffer target on the primary plane at the z-order of mFBLayers[k]. */
  function TargetAt(f: Frame, env: Env, k: nat): Option<Frame>
    requires Ready(f) && k < |f.fb|
  {
    PlacePrimaryAt(f, env, f.fbt.value, f.layers[f.fb[k]].index)
  }

  /** One step of the scan: an eligible FB layer whose placement succeeds ends it,
      anything else passes on to the next position. */
  lemma ScanForTargetStep(f: Frame, env: Env, i: nat)
    requires Ready(f) && i < |f.fb|
    ensures ScanForTarget(f, env, i)
         == if Eligible(f, i) && TargetAt(f, env, i).Some? then TargetAt(f, env, i) else ScanForTarget(f, env, i + 1)
  {
  }

  /** A successful scan from position i settles on position j: the first eligible FB
      layer from i on whose placement succeeds. Every eligible one before it failed. */
  lemma {:induction false} ScanForTargetWitness(f: Frame, env: Env, i: nat) returns (j: nat)
    requires Ready(f) && i <= |f.fb| && ScanForTarget(f, env, i).Some?
    ensures i <= j < |f.fb| && Eligible(f, j)
    ensures ScanForTarget(f, env, i) == TargetAt(f, env, j)
    ensures forall j' :: i <= j' < j && Eligible(f, j') ==> TargetAt(f, env, j').None?
    decreases |f.fb| - i
  {
    assert i < |f.fb|;
    ScanForTargetStep(f, env, i);
    if Eligible(f, i) && TargetAt(f, env, i).Some? {
      j := i;
    } else {
      assert ScanForTarget(f, env, i) == ScanForTarget(f, env, i + 1);
      j := ScanForTargetWitness(f, env, i + 1);
      forall j' | i <= j' < j && Eligible(f, j') ensures TargetAt(f, env, j').None? {
        if j' == i {
          assert !(Eligible(f, i) && TargetAt(f, env, i).Some?);
        }
      }
    }
  }

  /** A failed scan from position i means that placing the framebuffer target at every
      eligible FB layer from i on fails. */
  lemma {:induction false} ScanForTargetRefutes(f: Frame, env: Env, i: nat)
    requires Ready(f) && i <= |f.fb| && ScanForTarget(f, env, i).None?
    ensures forall j :: i <= j < |f.fb| && Eligible(f, j) ==> TargetAt(f, env, j).None?
    decreases |f.fb| - i
  {
    if i < |f.fb| {
      ScanForTargetStep(f, env, i);
      ScanForTargetRefutes(f, env, i + 1);
    }
  }

  /** First branch of assignPrimaryPlane: every FB layer but one holds a record and the
      scan found a free sprite candidate. That sprite goes on the primary plane, its
      record at its own z-order, and becomes LAYER_OVERLAY; the framebuffer target is
      left as it was. */
  lemma PrimarySpriteBranch(f: Frame, env: Env) returns (k: nat)
    requires PrimaryInv(f) && f.fbt.value !in f.sprites
    requires |f.config| == |f.fb| - 1 && UnusedSprite(f).Some?
    ensures PlacePrimary(f, env) == PlacePrimaryAt(f, env, UnusedSprite(f).value, -1)
    ensures NewRecord(f, PlanePrimary, UnusedSprite(f).value, -1)
         == ZOrderLayer(PlanePrimary, UnusedSprite(f).value, UnusedSprite(f).value)
    ensures PlacePrimary(f, env).Some? ==>
      && PlacePrimary(f, env).value.layers[UnusedSprite(f).value] == OnPrimary(f, env, UnusedSprite(f).value, -1, k)
      && OnPrimary(f, env, UnusedSprite(f).value, -1, k).kind == LayerOverlay
      && PlacePrimary(f, env).value.layers[f.fbt.value] == f.layers[f.fbt.value]
  {
    var s := UnusedSprite(f).value;
    var t := f.fbt.value;
    k := 0;
    if PlacePrimary(f, env).Some? {
      k := PlacePrimaryAtLayer(f, env, s, -1);
      PlacePrimaryAtKeepsOthers(f, env, s, -1);
      assert t != s;
      assert t !in LayersOf(f.config);
    }
  }

  /** Second branch: nothing holds a record. The framebuffer target goes on the primary
      plane at z-order 0, which succeeds exactly when the plane manager accepts that
      one-record configuration, and nothing else changes. */
  lemma PrimaryEmptyBranch(f: Frame, env: Env)
    requires PrimaryInv(f) && f.config == []
    requires !(|f.fb| == 1 && UnusedSprite(f).Some?)
    ensures PlacePrimary(f, env) == PlacePrimaryAt(f, env, f.fbt.value, 0)
    ensures PlacePrimary(f, env).Some? <==>
      && env.validZOrder([ZOrderLayer(PlanePrimary, f.fbt.value, 0)])
      && env.assignPlanes([ZOrderLayer(PlanePrimary, f.fbt.value, 0)])
    ensures PlacePrimary(f, env).Some? ==>
      PlacePrimary(f, env).value
        == f.(layers := f.layers[f.fbt.value := OnPrimary(f, env, f.fbt.value, 0, 0)])
  {
    var t := f.fbt.value;
    var rec := ZOrderLayer(PlanePrimary, t, 0);
    var h := AddRecord(f, PlanePrimary, t, 0);
    assert h.config == [rec];
    assert PrimaryConfig(f, t, 0) == [rec];
    if PlacePrimary(f, env).Some? {
      assert CommitPrefix(h, [rec], 0, env) == h;
      assert CommitPrefix(h, [rec], 1, env) == CommitRecord(h, [rec], 0, env);
    }
  }

  /** Third branch: every FB layer holds a record. The configuration is attached as it
      is, with no record for the primary plane: the framebuffer target is left as it was
      and no layer is newly given the primary plane. */
  lemma PrimaryAllOffloadedBranch(f: Frame, env: Env)
    requires PrimaryInv(f) && DistinctIndices(f.fb) && f.config != [] && |f.config| == |f.fb|
    requires forall r :: r in f.config ==> r.planeType != PlanePrimary
    ensures PlacePrimary(f, env) == Attach(f, env)
    ensures PlacePrimary(f, env).Some? ==> PlacePrimary(f, env).value.layers[f.fbt.value] == f.layers[f.fbt.value]
    ensures PlacePrimary(f, env).Some? ==>
      forall L :: 0 <= L < |f.layers| && PlacePrimary(f, env).value.layers[L].plane != f.layers[L].plane ==>
        PlacePrimary(f, env).value.layers[L].plane.Some?
        && PlacePrimary(f, env).value.layers[L].plane.value.planeType != PlanePrimary
  {
    if PlacePrimary(f, env).Some? {
      AttachEffect(f, env);
      var g := Attach(f, env).value;
      assert f.fbt.value !in LayersOf(f.config);
      forall L | 0 <= L < |f.layers| && g.layers[L].plane != f.layers[L].plane
        ensures g.layers[L].plane.Some? && g.layers[L].plane.value.planeType != PlanePrimary
      {
        assert L in LayersOf(f.config);
        var r :| r in f.config && r.layer == L;
        var k :| 0 <= k < |f.config| && f.config[k] == r;
        assert g.layers[L] == Committed(f, f.config, k, env);
      }
    }
  }

  /** Last branch: the framebuffer target goes at the z-order of the first eligible FB
      layer whose placement succeeds, and the branch fails exactly when the placement at
      every eligible FB layer fails. */
  lemma PrimaryScanBranch(f: Frame, env: Env)
    requires PrimaryInv(f) && f.config != [] && |f.config| != |f.fb|
    requires !(|f.config| == |f.fb| - 1 && UnusedSprite(f).Some?)
    ensures PlacePrimary(f, env) == ScanForTarget(f, env, 0)
    ensures PlacePrimary(f, env).None? <==>
      forall j :: 0 <= j < |f.fb| && Eligible(f, j) ==> TargetAt(f, env, j).None?
  {
    if ScanForTarget(f, env, 0).Some? {
      var j := ScanForTargetWitness(f, env, 0);
    } else {
      ScanForTargetRefutes(f, env, 0);
    }
  }
}
