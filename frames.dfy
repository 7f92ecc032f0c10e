/** The state of one HwcLayerList as a value, and the bookkeeping on it:
    adding and removing z-order records (addZOrderLayer, removeZOrderLayer) and
    committing a configuration to the planes (attachPlanes). */
module Frames {
  import opened Geometry
  import opened Layers
  import opened ZOrder

  /** mLayers, mFBLayers, mSpriteCandidates, mOverlayCandidates, mZOrderConfig,
      mFrameBufferTarget and mLayerCount. The vectors of layers hold indices into `layers`. */
  datatype Frame = Frame(
    layers: seq<Layer>,
    fb: seq<nat>,
    sprites: seq<nat>,
    overlays: seq<nat>,
    config: seq<ZOrderLayer>,
    fbt: Option<nat>,
    count: nat)

  const EmptyFrame: Frame := Frame([], [], [], [], [], None, 0)

  /** Every index the state holds names a layer, and each layer knows its own index. */
  predicate Indexed(f: Frame)
  {
    && |f.layers| == f.count
    && (forall i :: 0 <= i < |f.layers| ==> f.layers[i].index == i)
    && (forall k :: 0 <= k < |f.fb| ==> f.fb[k] < |f.layers|)
    && (forall k :: 0 <= k < |f.sprites| ==> f.sprites[k] < |f.layers|)
    && (forall k :: 0 <= k < |f.overlays| ==> f.overlays[k] < |f.layers|)
    && (forall r :: r in f.config ==> r.layer < |f.layers|)
    && (f.fbt.Some? ==> f.fbt.value < |f.layers|)
  }

  /** What plane assignment needs: a framebuffer target exists, and every layer but it
      is an FB layer, so that mFBLayers can be indexed by layer index up to
      mLayerCount - 1 as useAsFrameBufferTarget does. */
  predicate Ready(f: Frame)
  {
    Indexed(f) && f.fbt.Some? && |f.fb| + 1 == f.count
  }

  /** No layer has two records. */
  predicate DistinctLayers(c: seq<ZOrderLayer>)
  {
    forall i, j :: 0 <= i < j < |c| ==> c[i].layer != c[j].layer
  }

  /** No layer index occurs twice. */
  predicate DistinctIndices(s: seq<nat>)
  {
    forall i, j :: 0 <= i < j < |s| ==> s[i] != s[j]
  }

  /** The bookkeeping invariant of the search: a layer's mPlaneCandidate is set exactly
      when the configuration holds a record for it, no layer has two records, and the
      configuration is in z-order. */
  predicate Consistent(f: Frame)
  {
    && Indexed(f)
    && DistinctLayers(f.config)
    && SortedByZOrder(f.config)
    && forall L :: 0 <= L < |f.layers| ==> (f.layers[L].candidate <==> L in LayersOf(f.config))
  }

  /** The record addZOrderLayer creates; a z-order of -1 means the layer's own z-order,
      which is its index in the list. */
  function NewRecord(f: Frame, t: PlaneType, L: nat, zorder: int): (r: ZOrderLayer)
    requires L < |f.layers|
    ensures r.layer == L && r.planeType == t
    ensures r.zorder == if zorder == -1 then f.layers[L].index else zorder
  {
    ZOrderLayer(t, L, if zorder != -1 then zorder else f.layers[L].index)
  }

  /** addZOrderLayer: inserts the new record and sets the layer's mPlaneCandidate. */
  function AddRecord(f: Frame, t: PlaneType, L: nat, zorder: int): (g: Frame)
    requires Indexed(f) && L < |f.layers|
    ensures Indexed(g) && |g.layers| == |f.layers|
    ensures g.fb == f.fb && g.sprites == f.sprites && g.overlays == f.overlays
    ensures g.fbt == f.fbt && g.count == f.count
    ensures Ready(f) ==> Ready(g)
  {
    f.(config := Insert(f.config, NewRecord(f, t, L, zorder)),
       layers := f.layers[L := f.layers[L].(candidate := true)])
  }

  /** removeZOrderLayer: removes the record and clears its layer's mPlaneCandidate. */
  function RemoveRecord(f: Frame, r: ZOrderLayer): (g: Frame)
    requires Indexed(f) && r.layer < |f.layers|
    ensures Indexed(g) && |g.layers| == |f.layers|
    ensures g.fb == f.fb && g.sprites == f.sprites && g.overlays == f.overlays
    ensures g.fbt == f.fbt && g.count == f.count
  {
    f.(config := Remove(f.config, r),
       layers := f.layers[r.layer := f.layers[r.layer].(candidate := false)])
  }

  /** addZOrderLayer adds exactly one record, with the requested z-order (or the layer's
      own when -1), sets the flag of that layer only, and keeps the invariant when the
      layer was not yet a candidate. */
  lemma AddRecordEffect(f: Frame, t: PlaneType, L: nat, zorder: int)
    requires Indexed(f) && L < |f.layers|
    ensures var g := AddRecord(f, t, L, zorder);
      && multiset(g.config) == multiset(f.config) + multiset{ZOrderLayer(t, L, if zorder == -1 then L else zorder)}
      && g.layers[L].candidate
      && (forall K :: 0 <= K < |f.layers| && K != L ==> g.layers[K] == f.layers[K])
      && (SortedByZOrder(f.config) ==> SortedByZOrder(g.config))
      && (Consistent(f) && !f.layers[L].candidate ==> Consistent(g))
  {
    var r := NewRecord(f, t, L, zorder);
    var g := AddRecord(f, t, L, zorder);
    InsertContents(f.config, r);
    if SortedByZOrder(f.config) {
      InsertKeepsSorted(f.config, r);
    }
    if Consistent(f) && !f.layers[L].candidate {
      InsertKeepsDistinct(f.config, r);
      forall K | 0 <= K < |g.layers| ensures g.layers[K].candidate <==> K in LayersOf(g.config) {
      }
    }
  }

  lemma {:induction false} InsertKeepsDistinct(c: seq<ZOrderLayer>, r: ZOrderLayer)
    requires DistinctLayers(c) && r.layer !in LayersOf(c)
    ensures DistinctLayers(Insert(c, r))
  {
    if c == [] {
    } else if r.zorder < c[0].zorder {
      ConsKeepsDistinct(r, c);
    } else {
      var tl := c[1..];
      TailDistinct(c);
      InsertKeepsDistinct(tl, r);
      InsertContents(tl, r);
      assert c[0].layer != r.layer by {
        assert c[0] in c;
      }
      ConsKeepsDistinct(c[0], Insert(tl, r));
      assert Insert(c, r) == [c[0]] + Insert(tl, r);
    }
  }

  /** A record for a layer the configuration does not name can go in front of it. */
  lemma ConsKeepsDistinct(x: ZOrderLayer, c: seq<ZOrderLayer>)
    requires DistinctLayers(c) && x.layer !in LayersOf(c)
    ensures DistinctLayers([x] + c)
  {
    var res := [x] + c;
    forall i, j | 0 <= i < j < |res| ensures res[i].layer != res[j].layer {
      assert res[j] == c[j - 1];
      if i == 0 {
        assert res[j] in c;
      } else {
        assert res[i] == c[i - 1];
      }
    }
  }

  /** Without its first record a configuration stays distinct, names no new layer, and
      no longer names the first record's layer. */
  lemma TailDistinct(c: seq<ZOrderLayer>)
    requires DistinctLayers(c) && c != []
    ensures DistinctLayers(c[1..])
    ensures LayersOf(c[1..]) <= LayersOf(c)
    ensures c[0].layer !in LayersOf(c[1..])
  {
    var tl := c[1..];
    forall i, j | 0 <= i < j < |tl| ensures tl[i].layer != tl[j].layer {
      assert tl[i] == c[i + 1] && tl[j] == c[j + 1];
    }
    forall x | x in LayersOf(tl) ensures x in LayersOf(c) && x != c[0].layer {
      var y :| y in tl && y.layer == x;
      var k :| 0 <= k < |tl| && tl[k] == y;
      assert y == c[k + 1];
    }
  }

  /** removeZOrderLayer undoes addZOrderLayer: adding a record for a layer that was not
      a candidate and removing it again restores the configuration and every flag. */
  lemma RemoveUndoesAdd(f: Frame, t: PlaneType, L: nat, zorder: int)
    requires Consistent(f) && L < |f.layers| && !f.layers[L].candidate
    ensures RemoveRecord(AddRecord(f, t, L, zorder), NewRecord(f, t, L, zorder)) == f
  {
    var r := NewRecord(f, t, L, zorder);
    assert r in f.config ==> L in LayersOf(f.config);
    RemoveAfterInsert(f.config, r);
    var g := RemoveRecord(AddRecord(f, t, L, zorder), r);
    assert g.layers == f.layers;
  }

  /** mFBLayers.remove: drops the first occurrence of x. */
  function RemoveItem(s: seq<nat>, x: nat): (res: seq<nat>)
    ensures forall y :: y in res ==> y in s
    ensures forall y :: y in s && y != x ==> y in res
    ensures DistinctIndices(s) ==> x !in res && DistinctIndices(res)
  {
    if s == [] then []
    else if s[0] == x then
      assert forall i :: 0 < i < |s| ==> s[i] == s[1..][i - 1];
      s[1..]
    else
      var tl := s[1..];
      var res := [s[0]] + RemoveItem(tl, x);
      assert forall y :: y in s && y != s[0] ==> y in tl;
      assert DistinctIndices(s) ==> s[0] !in tl by {
        if DistinctIndices(s) {
          forall k | 0 <= k < |tl| ensures tl[k] != s[0] {
            assert tl[k] == s[k + 1];
          }
        }
      }
      assert DistinctIndices(s) ==> DistinctIndices(tl) by {
        if DistinctIndices(s) {
          forall i, j | 0 <= i < j < |tl| ensures tl[i] != tl[j] {
            assert tl[i] == s[i + 1] && tl[j] == s[j + 1];
          }
        }
      }
      res
  }

  /** One iteration of the loop in attachPlanes: the record at position i gets its plane
      with z-order i; a layer other than the framebuffer target becomes LAYER_OVERLAY and
      leaves mFBLayers. */
  function CommitRecord(f: Frame, c: seq<ZOrderLayer>, i: nat, env: Env): (g: Frame)
    requires i < |c| && c[i].layer < |f.layers|
    ensures |g.layers| == |f.layers|
    ensures g.config == f.config && g.sprites == f.sprites && g.overlays == f.overlays
    ensures g.fbt == f.fbt && g.count == f.count
  {
    var L := c[i].layer;
    var attached := f.layers[L].(plane := Some(Attached(env.planeFor(c, i), c[i].planeType, i)));
    if f.fbt == Some(L) then
      f.(layers := f.layers[L := attached])
    else
      f.(layers := f.layers[L := attached.(kind := LayerOverlay)], fb := RemoveItem(f.fb, L))
  }

  /** The first i iterations of that loop over configuration c. */
  function CommitPrefix(f: Frame, c: seq<ZOrderLayer>, i: nat, env: Env): (g: Frame)
    requires i <= |c| && forall r :: r in c ==> r.layer < |f.layers|
    ensures |g.layers| == |f.layers|
    ensures g.config == f.config && g.sprites == f.sprites && g.overlays == f.overlays
    ensures g.fbt == f.fbt && g.count == f.count
  {
    if i == 0 then f
    else
      assert c[i - 1] in c;
      CommitRecord(CommitPrefix(f, c, i - 1, env), c, i - 1, env)
  }

  /** Committing records keeps every index the state holds in range. */
  lemma CommitPrefixIndexed(f: Frame, c: seq<ZOrderLayer>, i: nat, env: Env)
    requires Indexed(f) && i <= |c| && forall r :: r in c ==> r.layer < |f.layers|
    ensures Indexed(CommitPrefix(f, c, i, env))
  {
    CommitPrefixKeeps(f, c, i, env);
    var g := CommitPrefix(f, c, i, env);
    assert forall k :: 0 <= k < |g.fb| ==> g.fb[k] in f.fb;
  }

  /** Committing records keeps every layer's index and only drops layers from
      mFBLayers. */
  lemma {:induction false} CommitPrefixKeeps(f: Frame, c: seq<ZOrderLayer>, i: nat, env: Env)
    requires i <= |c| && forall r :: r in c ==> r.layer < |f.layers|
    ensures var g := CommitPrefix(f, c, i, env);
      && (forall L :: 0 <= L < |g.layers| ==> g.layers[L].index == f.layers[L].index)
      && (forall x :: x in g.fb ==> x in f.fb)
  {
    if i > 0 {
      CommitPrefixKeeps(f, c, i - 1, env);
      assert c[i - 1] in c;
      var h := CommitPrefix(f, c, i - 1, env);
      assert CommitPrefix(f, c, i, env) == CommitRecord(h, c, i - 1, env);
    }
  }

  /** attachPlanes: when the plane manager accepts the configuration and assigns planes,
      every record is committed and the configuration is cleared; otherwise nothing changes. */
  function Attach(f: Frame, env: Env): (r: Option<Frame>)
    requires Indexed(f)
    ensures r.Some? <==> env.validZOrder(f.config) && env.assignPlanes(f.config)
    ensures r.Some? ==> r.value.config == [] && |r.value.layers| == |f.layers|
    ensures r.Some? ==> r.value.sprites == f.sprites && r.value.overlays == f.overlays
  {
    if !env.validZOrder(f.config) || !env.assignPlanes(f.config) then None
    else
      CommitPrefixIndexed(f, f.config, |f.config|, env);
      Some(CommitPrefix(f, f.config, |f.config|, env).(config := []))
  }

  /** The layer record c[k] leaves behind once committed: its plane, with z-order k, and
      LAYER_OVERLAY unless it is the framebuffer target. */
  function Committed(f: Frame, c: seq<ZOrderLayer>, k: nat, env: Env): Layer
    requires k < |c| && c[k].layer < |f.layers|
  {
    var L := c[k].layer;
    var attached := f.layers[L].(plane := Some(Attached(env.planeFor(c, k), c[k].planeType, k)));
    if f.fbt == Some(L) then attached else attached.(kind := LayerOverlay)
  }

  /** One iteration of that loop commits record k to its layer and changes no other
      layer. */
  lemma CommitRecordLayers(h: Frame, c: seq<ZOrderLayer>, k: nat, env: Env)
    requires k < |c| && c[k].layer < |h.layers|
    ensures var g := CommitRecord(h, c, k, env);
      && g.layers[c[k].layer] == Committed(h, c, k, env)
      && (forall M :: 0 <= M < |h.layers| && M != c[k].layer ==> g.layers[M] == h.layers[M])
  {
  }

  /** ... and changes mFBLayers only by the committed layer, unless it is the framebuffer
      target. */
  lemma CommitRecordFb(h: Frame, c: seq<ZOrderLayer>, k: nat, env: Env, x: nat)
    requires k < |c| && c[k].layer < |h.layers| && DistinctIndices(h.fb)
    ensures x in CommitRecord(h, c, k, env).fb <==> x in h.fb && (x != c[k].layer || h.fbt == Some(x))
  {
    if h.fbt != Some(c[k].layer) {
      assert CommitRecord(h, c, k, env).fb == RemoveItem(h.fb, c[k].layer);
    }
  }

  lemma CommitRecordFbDistinct(h: Frame, c: seq<ZOrderLayer>, k: nat, env: Env)
    requires k < |c| && c[k].layer < |h.layers| && DistinctIndices(h.fb)
    ensures DistinctIndices(CommitRecord(h, c, k, env).fb)
  {
    if h.fbt != Some(c[k].layer) {
      assert CommitRecord(h, c, k, env).fb == RemoveItem(h.fb, c[k].layer);
    }
  }

  /** Whether one of the first i records names layer x. */
  predicate NamesLayer(c: seq<ZOrderLayer>, i: nat, x: nat)
    requires i <= |c|
  {
    i > 0 && (c[i - 1].layer == x || NamesLayer(c, i - 1, x))
  }

  lemma {:induction false} NamesLayerMeaning(c: seq<ZOrderLayer>, i: nat, x: nat)
    requires i <= |c|
    ensures NamesLayer(c, i, x) <==> exists k :: 0 <= k < i && c[k].layer == x
  {
    if i > 0 {
      NamesLayerMeaning(c, i - 1, x);
    }
  }

  /** Record c[i] names a layer none of the records before it names. */
  lemma FreshLayer(c: seq<ZOrderLayer>, i: nat)
    requires DistinctLayers(c) && i < |c|
    ensures !NamesLayer(c, i, c[i].layer)
  {
    NamesLayerMeaning(c, i, c[i].layer);
  }

  /** The first i iterations of the loop of attachPlanes leave every layer no record
      among the first i names as it was. */
  lemma {:induction false} CommitPrefixLayers(f: Frame, c: seq<ZOrderLayer>, i: nat, env: Env)
    requires i <= |c| && (forall r :: r in c ==> r.layer < |f.layers|)
    ensures forall L :: 0 <= L < |f.layers| && !NamesLayer(c, i, L) ==> CommitPrefix(f, c, i, env).layers[L] == f.layers[L]
  {
    if i > 0 {
      CommitPrefixLayers(f, c, i - 1, env);
      assert c[i - 1] in c;
      CommitRecordLayers(CommitPrefix(f, c, i - 1, env), c, i - 1, env);
    }
  }

  /** ... and take exactly the named layers other than the framebuffer target out of
      mFBLayers. */
  lemma {:induction false} CommitPrefixFb(f: Frame, c: seq<ZOrderLayer>, i: nat, env: Env, x: nat)
    requires i <= |c| && (forall r :: r in c ==> r.layer < |f.layers|)
    requires DistinctIndices(f.fb)
    ensures x in CommitPrefix(f, c, i, env).fb <==> x in f.fb && (!NamesLayer(c, i, x) || f.fbt == Some(x))
  {
    if i > 0 {
      CommitPrefixFb(f, c, i - 1, env, x);
      CommitPrefixFbDistinct(f, c, i - 1, env);
      assert c[i - 1] in c;
      var h := CommitPrefix(f, c, i - 1, env);
      assert CommitPrefix(f, c, i, env) == CommitRecord(h, c, i - 1, env);
      CommitRecordFb(h, c, i - 1, env, x);
    }
  }

  /** ... keeping mFBLayers free of duplicates. */
  lemma {:induction false} CommitPrefixFbDistinct(f: Frame, c: seq<ZOrderLayer>, i: nat, env: Env)
    requires i <= |c| && (forall r :: r in c ==> r.layer < |f.layers|)
    requires DistinctIndices(f.fb)
    ensures DistinctIndices(CommitPrefix(f, c, i, env).fb)
  {
    if i > 0 {
      CommitPrefixFbDistinct(f, c, i - 1, env);
      assert c[i - 1] in c;
      var h := CommitPrefix(f, c, i - 1, env);
      assert CommitPrefix(f, c, i, env) == CommitRecord(h, c, i - 1, env);
      CommitRecordFbDistinct(h, c, i - 1, env);
    }
  }

  /** ... and commit each of those records to its own layer. */
  lemma {:induction false} CommitPrefixEffect(f: Frame, c: seq<ZOrderLayer>, i: nat, k: nat, env: Env)
    requires k < i <= |c| && (forall r :: r in c ==> r.layer < |f.layers|)
    requires DistinctLayers(c)
    ensures CommitPrefix(f, c, i, env).layers[c[k].layer] == Committed(f, c, k, env)
  {
    if k == i - 1 {
      CommitLastEffect(f, c, i, env);
    } else {
      var h := CommitPrefix(f, c, i - 1, env);
      assert c[i - 1] in c;
      assert CommitPrefix(f, c, i, env) == CommitRecord(h, c, i - 1, env);
      CommitPrefixEffect(f, c, i - 1, k, env);
      assert c[k].layer != c[i - 1].layer;
      assert CommitRecord(h, c, i - 1, env).layers[c[k].layer] == h.layers[c[k].layer];
    }
  }

  /** The last record of a prefix is committed to a layer no earlier record touched. */
  lemma CommitLastEffect(f: Frame, c: seq<ZOrderLayer>, i: nat, env: Env)
    requires 0 < i <= |c| && (forall r :: r in c ==> r.layer < |f.layers|)
    requires DistinctLayers(c)
    ensures CommitPrefix(f, c, i, env).layers[c[i - 1].layer] == Committed(f, c, i - 1, env)
  {
    var h := CommitPrefix(f, c, i - 1, env);
    assert c[i - 1] in c;
    assert CommitPrefix(f, c, i, env) == CommitRecord(h, c, i - 1, env);
    CommitRecordLayers(h, c, i - 1, env);
    CommitPrefixLayers(f, c, i - 1, env);
    FreshLayer(c, i - 1);
    assert h.layers[c[i - 1].layer] == f.layers[c[i - 1].layer];
    assert Committed(h, c, i - 1, env) == Committed(f, c, i - 1, env);
  }

  /** What a successful attachPlanes leaves: every record's layer committed with z-order
      equal to its position, every other layer untouched, the committed layers other than
      the framebuffer target out of mFBLayers, and the configuration empty. */
  lemma AttachEffect(f: Frame, env: Env)
    requires Indexed(f) && DistinctLayers(f.config) && DistinctIndices(f.fb)
    requires Attach(f, env).Some?
    ensures var g := Attach(f, env).value;
      && g.config == []
      && (forall k :: 0 <= k < |f.config| ==> g.layers[f.config[k].layer] == Committed(f, f.config, k, env))
      && (forall L :: 0 <= L < |f.layers| && L !in LayersOf(f.config) ==> g.layers[L] == f.layers[L])
      && (forall x :: x in g.fb <==> x in f.fb && (x !in LayersOf(f.config) || f.fbt == Some(x)))
  {
    forall k | 0 <= k < |f.config|
      ensures CommitPrefix(f, f.config, |f.config|, env).layers[f.config[k].layer] == Committed(f, f.config, k, env)
    {
      CommitPrefixEffect(f, f.config, |f.config|, k, env);
    }
    CommitPrefixLayers(f, f.config, |f.config|, env);
    forall x ensures NamesLayer(f.config, |f.config|, x) <==> x in LayersOf(f.config) {
      NamesLayerMeaning(f.config, |f.config|, x);
      if x in LayersOf(f.config) {
        var r :| r in f.config && r.layer == x;
        var k :| 0 <= k < |f.config| && f.config[k] == r;
      }
    }
    forall x {
      CommitPrefixFb(f, f.config, |f.config|, env, x);
    }
  }
}
