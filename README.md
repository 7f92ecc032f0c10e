# HwcLayerList: a verified model of the layer list of the Intel hwcomposer

`HwcLayerList` is the per-frame layer list of the Intel hardware composer. It wraps the
list SurfaceFlinger hands over (`hwc_display_contents_1_t`), one `HwcLayer` per
`hwc_layer_1_t`. It sorts the layers into vectors:

- `mLayers`: every layer;
- `mFBLayers`: the GPU-composed layers;
- `mSpriteCandidates` and `mOverlayCandidates`: the layers that could go on a plane;
- `mZOrderConfig`: the z-order records under trial, kept sorted by z-order.

It then searches for an assignment of display planes:

- first the overlay candidates, then the sprite candidates, then the primary plane;
- for each class, the largest plane count first;
- with backtracking over which candidates get the planes.

A successful assignment is committed to the planes. Each later frame runs `update`, which
refreshes the layers and sets up smart composition: when no GPU-composed layer changed,
the framebuffer content of the previous frame is reused. `getPlane` reports the plane of
a layer, and `deinitialize` hands the planes back.

The model has a value layer and a class:

- `Frames.Frame`, a datatype, is the whole state as a value: the layers, the four index
  vectors, the z-order configuration, the framebuffer target and `mLayerCount`.
- Specification functions on `Frame` describe each operation: `Classify.ClassifyPrefix`,
  `Search.SearchTop`, `Placement.PlacePrimary`, `Frames.Attach`, `Refresh.Updated` and
  the others in the table below.
- `LayerList.HwcLayerList` is a class with the same fields.
  - Its methods mirror the C++ member functions: the same loops, the same recursion and
    the same undo on failure.
  - The candidate loops of `assignOverlayPlanes(index, planeNumber)` and
    `assignSpritePlanes(index, planeNumber)` are the same code over two vectors. They
    are one method, `TryCandidates`, with the phase as a parameter.
  - Each method is proved to leave `State()` equal to the specification function of the
    old state. The search, placement, attach and update methods are proved to leave the
    state untouched when they fail. initialize is different: a list without a
    framebuffer target makes it return false and keep the classified state.
- `PlacementProps` states what primary placement computes.
- The plane manager, the display analyzer and `PlaneCapabilities` are outside the list.
  They are the oracles of `Layers.Env`, a parameter of every operation.

The main results:

- The search is exhaustive. `SearchProps.SearchTopIsLargestFeasible` shows that
  `assignOverlayPlanes` returns the outcome of a largest feasible choice of candidates,
  and that on failure no choice within the plane budget succeeds.
- `checkSupported` rejects on the first failing check, in source order.
- The z-order configuration stays sorted and consistent with the `mPlaneCandidate`
  flags. A failed attempt is undone exactly.
- `attachPlanes` gives every record its plane at its position, and takes exactly the
  committed layers out of `mFBLayers`. For the framebuffer target it skips the removal
  and the change to LAYER_OVERLAY; classification never puts the target in `mFBLayers`.
- `assignPrimaryPlane` is stated branch by branch in `PlacementProps`:
  - with one FB layer left and a free sprite candidate, that sprite gets the primary
    plane at its own z-order;
  - with an empty configuration, the framebuffer target gets it at z-order 0;
  - with every FB layer offloaded, the configuration is attached as it is;
  - otherwise the framebuffer target goes at the z-order of the first eligible FB layer
    whose placement succeeds, and the branch fails only when every one of them fails.
- Smart composition is all-or-nothing and idempotent.
- The usage check in `checkSupported` never rejects, because of an operator-precedence
  slip. The model keeps the code as written.

## Model

| member | source | states |
|---|---|---|
| Geometry.HasIntersection | common/base/HwcLayerList.cpp:556-570 | For non-empty frames, hasIntersection holds exactly when the horizontal spans overlap and the vertical spans overlap, with the right and bottom edges exclusive. |
| Geometry.HasIntersectionSymmetric | common/base/HwcLayerList.cpp:556-570 | Whether two display frames intersect does not depend on the order of the arguments. |
| Geometry.IntersectionIsCommonPixel | common/base/HwcLayerList.cpp:556-570 | For non-empty frames, hasIntersection holds exactly when some pixel lies in both frames (right and bottom edges exclusive). |
| Geometry.EdgeSharingFramesDoNotIntersect | common/base/HwcLayerList.cpp:556-570 | Frames that only share an edge do not intersect; frames that overlap by a column do, in either order. |
| Geometry.ZeroWidthFrameIntersects | common/base/HwcLayerList.cpp:556-570 | The strict comparisons let an empty (zero-width) frame inside another count as intersecting, though it covers no pixel. |
| Layers.CheckSupported | common/base/HwcLayerList.cpp:59-124 | A rejection names a check the layer fails. Supported means the layer is not forced to FB, not skipped, has a buffer and passes the capability check on every axis. |
| Layers.EveryAxisChecked | common/base/HwcLayerList.cpp:87-120 | The five capability checks (transform, format, size, blending, scaling) cover every axis. |
| Layers.CheckSupportedFirstFailure | common/base/HwcLayerList.cpp:59-124 | A layer is supported exactly when every check passes (forced-FB type, skip flag, handle, usage, transform, format, size, blending, scaling). A rejection names the first failing check in that order, and every earlier check passed. |
| Layers.FirstFailing | common/base/HwcLayerList.cpp:59-124 | The position of the first failing check determines the verdict: Rejected with that check as the reason, or Supported when all nine pass. |
| Layers.UsageCheckNeverRejects | common/base/HwcLayerList.cpp:81-85 | The usage test as written (`!usage & GRALLOC_USAGE_HW_COMPOSER`) is false for every usage, so checkSupported never rejects for usage. |
| Layers.UsageCheckMissesNonComposerBuffer | common/base/HwcLayerList.cpp:81-85 | A buffer with usage 0, which the test means to reject, passes it as written. |
| ZOrder.Insert | common/base/HwcLayerList.cpp:590 | Adding a record to mZOrderConfig grows it by one, and its members are the old ones plus the record. |
| ZOrder.InsertKeepsSorted | common/base/HwcLayerList.cpp:590 | Adding a record keeps mZOrderConfig sorted by z-order. |
| ZOrder.InsertContents | common/base/HwcLayerList.cpp:590 | Adding a record adds exactly that record (as a multiset), and its layer to the layers the configuration names. |
| ZOrder.InsertPosition | common/base/HwcLayerList.cpp:590 | The added record lands at a position k: every record before it has a z-order not above its own, and in a sorted configuration every record after it has a higher z-order. |
| ZOrder.Remove | common/base/HwcLayerList.cpp:600 | Removing a record introduces no new record. |
| ZOrder.RemoveContents | common/base/HwcLayerList.cpp:600 | Removing a present record removes exactly one copy of it (as a multiset). |
| ZOrder.RemoveAfterInsert | common/base/HwcLayerList.cpp:572-607 | Removing a record just added restores the configuration exactly. |
| ZOrder.NoLayersMeansEmpty | common/base/HwcLayerList.cpp:572-607 | The configuration names no layer exactly when it is empty. |
| Frames.NewRecord | common/base/HwcLayerList.cpp:574-578 | The new record names the layer and plane type, with the given z-order, or the layer's own z-order when the argument is -1. |
| Frames.AddRecordEffect | common/base/HwcLayerList.cpp:572-592 | addZOrderLayer adds exactly the new record and sets the layer's mPlaneCandidate. It changes no other layer, keeps the configuration sorted, and keeps the state consistent when the layer was not yet a candidate. |
| Frames.AddRecord | common/base/HwcLayerList.cpp:572-592 | addZOrderLayer leaves the vectors, the framebuffer target and mLayerCount unchanged. |
| Frames.InsertKeepsDistinct | common/base/HwcLayerList.cpp:572-592 | A record for a layer with no record keeps every layer to at most one record. |
| Frames.RemoveRecord | common/base/HwcLayerList.cpp:594-607 | removeZOrderLayer leaves the vectors, the framebuffer target and mLayerCount unchanged. |
| Frames.RemoveUndoesAdd | common/base/HwcLayerList.cpp:594-607 | removeZOrderLayer after addZOrderLayer on a consistent state restores it exactly, flag included. |
| Frames.RemoveItem | common/base/HwcLayerList.cpp:487 | SortedVector::remove on mFBLayers keeps every other layer and brings in no new one. On a duplicate-free vector it drops the layer and stays duplicate-free. |
| Frames.Attach | common/base/HwcLayerList.cpp:462-504 | attachPlanes succeeds exactly when the plane manager accepts the z-order and assigns planes. On success the configuration is empty, the number of layers is kept, and the sprite and overlay candidate vectors are unchanged. |
| Frames.AttachEffect | common/base/HwcLayerList.cpp:462-504 | After a successful attachPlanes, the layer of the record at position k has that record's plane attached with z-order k, and LAYER_OVERLAY type unless it is the framebuffer target. Every other layer is untouched. mFBLayers loses exactly the committed layers other than the framebuffer target. |
| Frames.CommitPrefixEffect | common/base/HwcLayerList.cpp:477-500 | After the loop has run past position k, the layer of record k holds exactly what that iteration gave it. |
| Frames.CommitPrefixLayers | common/base/HwcLayerList.cpp:477-500 | A layer named by no record in the prefix is unchanged. |
| Frames.CommitPrefixFb | common/base/HwcLayerList.cpp:477-500 | A layer is in mFBLayers after the prefix exactly when it was before, and either no record in the prefix names it or it is the framebuffer target. |
| Frames.CommitPrefixIndexed | common/base/HwcLayerList.cpp:477-500 | The commit loop keeps every index in range and every layer knows its index. |
| Frames.CommitRecord | common/base/HwcLayerList.cpp:477-499 | One iteration of the commit loop keeps the configuration, the candidate vectors, the framebuffer target, mLayerCount and the number of layers. |
| Frames.CommitRecordLayers | common/base/HwcLayerList.cpp:477-500 | One loop iteration changes only the layer of its record. |
| Frames.CommitRecordFb | common/base/HwcLayerList.cpp:484-487 | One iteration drops its layer from mFBLayers unless it is the framebuffer target. |
| Frames.NamesLayerMeaning | common/base/HwcLayerList.cpp:477-500 | A layer is named in the prefix exactly when some record before the bound names it. |
| Placement.UseAsFrameBufferTargetIsMergeRule | common/base/HwcLayerList.cpp:506-554 | useAsFrameBufferTarget holds exactly when every non-candidate FB layer can be moved to the target's z-order without crossing an overlapping candidate: below the target, no candidate above it overlaps it; above the target, no candidate below it overlaps it. |
| Placement.UnusedSprite | common/base/HwcLayerList.cpp:399-405 | The first loop of assignPrimaryPlane finds nothing exactly when there is no sprite candidate or the last one holds a record. A sprite it finds is a sprite candidate that holds no record. |
| Placement.UnusedSpriteScan | common/base/HwcLayerList.cpp:400-405 | Once the loop has found a sprite it keeps a result. A sprite it picks up itself is a sprite candidate that holds no record. |
| Placement.UnusedSpriteIsLowestOfTopRun | common/base/HwcLayerList.cpp:399-405 | The sprite the loop finds is at some position j of mSpriteCandidates: no candidate from j up holds a record, and the one below j, if any, holds one. So it is the lowest sprite candidate of the top run without records. |
| Placement.UseAsFrameBufferTarget | common/base/HwcLayerList.cpp:506-554 | Any position is accepted for the framebuffer target when no FB layer holds a record, or when every FB layer does. |
| Placement.PlacePrimaryAt | common/base/HwcLayerList.cpp:452-460 | A successful assignPrimaryPlaneHelper ends with an empty configuration. |
| Placement.ScanForTarget | common/base/HwcLayerList.cpp:432-444 | A successful scan for the framebuffer target's z-order ends with an empty configuration. |
| Placement.PlacePrimary | common/base/HwcLayerList.cpp:396-450 | A successful assignPrimaryPlane ends with the configuration committed and cleared. |
| Search.AddCandidate | common/base/HwcLayerList.cpp:335 | Adding the record for a candidate keeps the state ready for assignment and keeps the candidate vector. |
| Search.SearchTop | common/base/HwcLayerList.cpp:293-323 | A successful assignOverlayPlanes / assignSpritePlanes ends with the configuration committed and cleared. |
| Search.SearchDescend | common/base/HwcLayerList.cpp:313-322 | A success of the descending loop over plane counts ends with the configuration committed and cleared. |
| Search.SearchTry | common/base/HwcLayerList.cpp:334-341 | A success of the loop over candidate positions ends with the configuration committed and cleared. |
| Search.SearchFrom | common/base/HwcLayerList.cpp:326-342 | A successful assignOverlayPlanes(index, n) / assignSpritePlanes(index, n) ends with the configuration committed and cleared. |
| PlacementProps.PlacePrimaryAtSucceeds | common/base/HwcLayerList.cpp:452-460 | assignPrimaryPlaneHelper succeeds exactly when the plane manager accepts the configuration with the primary-plane record added and assigns its planes. |
| PlacementProps.PrimaryRecordPosition | common/base/HwcLayerList.cpp:454 | The primary-plane record goes after every record whose z-order is not above its own and before every record whose z-order is. |
| PlacementProps.PlacePrimaryAtLayer | common/base/HwcLayerList.cpp:452-460 | On success the layer holds the primary plane with its record's position as z-order, keeps mPlaneCandidate set, becomes LAYER_OVERLAY unless it is the framebuffer target, and the configuration ends empty. |
| PlacementProps.PlacePrimaryAtKeepsOthers | common/base/HwcLayerList.cpp:452-460 | On success every layer that is neither the placed layer nor named by a record is left as it was. |
| PlacementProps.PlacePrimaryAtCommitsOthers | common/base/HwcLayerList.cpp:452-504 | On success the layer of each record already in the configuration gets its plane at that record's new position, one place up when it lies above the primary-plane record. |
| PlacementProps.ScanForTargetStep | common/base/HwcLayerList.cpp:432-443 | One iteration ends the loop with a non-candidate FB layer that passes useAsFrameBufferTarget and whose placement succeeds. Any other FB layer passes the loop on to the next one. |
| PlacementProps.ScanForTargetWitness | common/base/HwcLayerList.cpp:432-443 | A successful loop settles on an eligible FB layer and returns the placement of the framebuffer target at its z-order. Every eligible FB layer before it failed. |
| PlacementProps.ScanForTargetRefutes | common/base/HwcLayerList.cpp:432-446 | A failed loop means that placing the framebuffer target at the z-order of every eligible FB layer fails. |
| PlacementProps.PrimarySpriteBranch | common/base/HwcLayerList.cpp:411-416 | With one FB layer left and an unused sprite candidate, that sprite is placed with a primary-plane record at its own z-order. On success it holds the primary plane as LAYER_OVERLAY and the framebuffer target is left as it was. |
| PlacementProps.PrimaryEmptyBranch | common/base/HwcLayerList.cpp:417-422 | With an empty configuration the framebuffer target is placed at z-order 0. This succeeds exactly when the plane manager accepts that one record, and then only the target changes: it gets the primary plane at z-order 0. |
| PlacementProps.PrimaryAllOffloadedBranch | common/base/HwcLayerList.cpp:423-428 | With every FB layer offloaded the result is attachPlanes on the configuration as it is. The framebuffer target is left as it was, and no layer is newly given the primary plane. |
| PlacementProps.PrimaryScanBranch | common/base/HwcLayerList.cpp:429-447 | Otherwise the result is the scan's, and the branch fails exactly when placing the framebuffer target at every eligible FB layer fails. |
| SearchProps.SearchTopIsLargestFeasible | common/base/HwcLayerList.cpp:293-394 | On success some choice of increasing candidate positions, within the plane budget, produces the result, and every larger choice within the budget fails. On failure every choice within the budget fails. |
| SearchProps.SearchFromIsExhaustive | common/base/HwcLayerList.cpp:326-342 | The recursive search with n planes from position index succeeds exactly when some increasing choice of n positions from index leads to success, and that choice produces its result. When it fails, every such choice fails. |
| SearchProps.SearchTryWitness | common/base/HwcLayerList.cpp:334-341 | A successful loop yields the choice of positions that produced its result. |
| SearchProps.SearchTryRefutes | common/base/HwcLayerList.cpp:334-341 | A failed loop means no choice of n positions from i succeeds. |
| SearchProps.SearchTryStep | common/base/HwcLayerList.cpp:334-341 | The loop stops when fewer than n candidates remain. It returns the first success, and otherwise undoes the record and moves to the next position. |
| SearchProps.SearchTryExhausted | common/base/HwcLayerList.cpp:334 | Past position size - n the loop does not run. |
| SearchProps.SearchDescendPicksLargest | common/base/HwcLayerList.cpp:313-322 | The descending loop returns the search with the largest plane count that succeeds, and every larger count fails. When all fail, every count up to the start fails. |
| SearchProps.DescendSuccessIsLargest | common/base/HwcLayerList.cpp:307-317 | With candidates and free planes, a success is produced by a choice no larger feasible choice beats. |
| SearchProps.DescendFailureRefutesAll | common/base/HwcLayerList.cpp:307-322 | With candidates and free planes, a failure means no choice within the budget succeeds. |
| SearchProps.NoBudgetSkipsPhase | common/base/HwcLayerList.cpp:295-305 | Without candidates or free planes, the phase hands over directly to the next one. |
| SearchProps.StopCount | common/base/HwcLayerList.cpp:313-321 | The count at which the descending loop stops is at most the starting count. |
| SearchProps.AddCandidateKeepsPhaseInv | common/base/HwcLayerList.cpp:334-336 | Adding the record for candidate i keeps the bookkeeping invariant, and the candidate held no record before. |
| SearchProps.OverlayPhaseHandsOver | common/base/HwcLayerList.cpp:329-331 | The overlay phase's invariant gives the sprite phase its starting invariant. |
| SearchProps.SpritePhaseHandsOver | common/base/HwcLayerList.cpp:381-383 | The sprite phase's invariant gives assignPrimaryPlane its precondition. |
| SearchProps.StartOfSearchHasEmptyConfig | common/base/HwcLayerList.cpp:318-320 | At the start of each plane count the configuration is empty, so the "not cleaned up" error is never logged. |
| SearchProps.ChoiceFits | common/base/HwcLayerList.cpp:334 | A choice of increasing positions in [lo, hi) has at most hi - lo elements. |
| SearchProps.AddAll | common/base/HwcLayerList.cpp:334-336 | Adding the records of a choice keeps the state ready and the candidate vector unchanged. |
| Classify.IndicesWhereMeaning | common/base/HwcLayerList.cpp:141-181 | A vector built in the loop holds exactly the indices of the layers in that role, in increasing order, and all of them when every layer plays the role. |
| Classify.LastTarget | common/base/HwcLayerList.cpp:149-152 | mFrameBufferTarget is the last HWC_FRAMEBUFFER_TARGET layer, and it is absent exactly when there is none. |
| Classify.ClassifyPrefix | common/base/HwcLayerList.cpp:141-181 | A successful classification of the first n layers has n layers, mLayerCount equal to the list size and an empty configuration. |
| Classify.ClassifyStep | common/base/HwcLayerList.cpp:142-176 | One iteration fails exactly on an unrecognised composition type. |
| Classify.ClassifyStepVectors | common/base/HwcLayerList.cpp:142-180 | One iteration appends the new layer with its type tag. The layer goes into mFBLayers, mSpriteCandidates or mOverlayCandidates exactly when it plays that role, and becomes the framebuffer target when its type says so. |
| Classify.ClassifyPrefixMeaning | common/base/HwcLayerList.cpp:141-181 | Classification of the first n layers fails exactly when one of them has an unrecognised type. Otherwise the state is exactly the well-classified one. |
| Classify.ClassifyStepMeaning | common/base/HwcLayerList.cpp:141-181 | Each iteration keeps the well-classified invariant. |
| Classify.ClassificationSeparates | common/base/HwcLayerList.cpp:141-181 | After classification, mFBLayers holds exactly the FB and forced-FB layers. No layer is both sprite and overlay candidate. Forced-FB layers are no candidates. Targets and skipped layers are not in mFBLayers. |
| Classify.WellClassifiedIsReady | common/base/HwcLayerList.cpp:183-190 | On a list whose framebuffer target is last and that has no skipped layer, a classification with a target is ready for plane assignment. |
| Classify.WellClassifiedIsSearchable | common/base/HwcLayerList.cpp:183-190 | Such a classification also satisfies the overlay phase's starting invariant. |
| Classify.ClassifiedIsSearchable | common/base/HwcLayerList.cpp:183-190 | The same, for the classification of the whole list. |
| Classify.Initialized | common/base/HwcLayerList.cpp:126-195 | initialize returns true exactly when the list is non-null and non-empty, every type is recognised and there is a framebuffer target. A null or empty list leaves the state empty. |
| Refresh.SmartType | common/base/HwcLayerList.cpp:611-620 | The composition type chosen is HWC_FRAMEBUFFER or HWC_OVERLAY. |
| Refresh.SmartComposed | common/base/HwcLayerList.cpp:609-636 | Smart composition keeps the number of layers, mFBLayers, the configuration, the framebuffer target and every layer's update flag. |
| Refresh.SmartCompositionAllOrNothing | common/base/HwcLayerList.cpp:609-636 | Every FB and forced-FB layer of mFBLayers gets HWC_FRAMEBUFFER when any of them was updated, and HWC_OVERLAY otherwise. No other field of any layer changes, and no other layer changes. |
| Refresh.SmartCompositionIdempotent | common/base/HwcLayerList.cpp:609-636 | Setting up smart composition twice gives the same state as once. |
| Refresh.Updated | common/base/HwcLayerList.cpp:638-669 | update succeeds exactly when the list is non-null and has mLayerCount layers. |
| Refresh.UpdateRefreshesEveryLayer | common/base/HwcLayerList.cpp:638-669 | After update every layer wraps the new list's layer at its index, only the composition of FB layers may differ from it, and the type, flags, plane and vectors are kept. |
| Refresh.PlaneAt | common/base/HwcLayerList.cpp:671-693 | getPlane returns a plane only for an index in range, for a layer that is neither GPU-composed nor skipped and has a buffer. For every such layer it returns that layer's plane. |
| Refresh.PlaneAtAfterAttach | common/base/HwcLayerList.cpp:462-504 | After a successful attachPlanes, getPlane on a committed layer with a buffer returns the plane of its record, with the record's position as z-order. |
| Refresh.AttachedPlanes | common/base/HwcLayerList.cpp:203-213 | deinitialize hands back at most one plane per layer. |
| Refresh.AttachedPlanesAreReclaimed | common/base/HwcLayerList.cpp:203-213 | deinitialize reclaims exactly the planes attached to the layers, and none when no layer has a plane. |
| LayerList.HwcLayerList.GetPlane | common/base/HwcLayerList.cpp:671-693 | getPlane returns a plane exactly when the index is in range and the layer is neither GPU-composed nor skipped, has a buffer and has a plane. For every such layer it returns that layer's plane. |
| LayerList.HwcLayerList.constructor | common/base/HwcLayerList.cpp:39-51 | The constructor starts from an empty list and runs initialize. The state is the one initialize specifies. |
| LayerList.HwcLayerList.Initialize | common/base/HwcLayerList.cpp:126-195 | initialize returns and leaves exactly what Classify.Initialized specifies. |
| LayerList.HwcLayerList.ClassifyLayers | common/base/HwcLayerList.cpp:141-181 | The loop of initialize leaves the classification of the whole list, or, on an unrecognised type, deinitializes back to the empty state. |
| LayerList.HwcLayerList.AddLayer | common/base/HwcLayerList.cpp:142-180 | One iteration of the loop updates the state as Classify.ClassifyStep says, or changes nothing on an unrecognised type. |
| LayerList.HwcLayerList.Deinitialize | common/base/HwcLayerList.cpp:197-222 | With mLayerCount 0 nothing changes and nothing is reclaimed. Otherwise the attached planes are reclaimed and the list is empty. |
| LayerList.HwcLayerList.AssignOverlayPlanes | common/base/HwcLayerList.cpp:293-323 | The result and the state are those of Search.SearchTop for the overlay phase, and a failure changes nothing. |
| LayerList.HwcLayerList.AssignOverlayPlanesFrom | common/base/HwcLayerList.cpp:326-342 | The result and the state are those of Search.SearchFrom, and a failure changes nothing. |
| LayerList.HwcLayerList.TryCandidates | common/base/HwcLayerList.cpp:334-341 | The loop over positions gives the result and state of Search.SearchTry, and a failure changes nothing. The sprite loop at lines 386-393 is the same code over mSpriteCandidates. |
| LayerList.HwcLayerList.TryCandidate | common/base/HwcLayerList.cpp:335-339 | One iteration, in the search of either phase, either succeeds with the loop's final state, or undoes its record and leaves the outcome to the next position. |
| LayerList.HwcLayerList.TryOverlayCandidate | common/base/HwcLayerList.cpp:335-339 | One iteration either succeeds with the loop's final state, or undoes its record and leaves the outcome to the next position. |
| LayerList.HwcLayerList.AssignSpritePlanes | common/base/HwcLayerList.cpp:344-376 | The result and the state are those of Search.SearchTop for the sprite phase, and a failure changes nothing. |
| LayerList.HwcLayerList.AssignSpritePlanesFrom | common/base/HwcLayerList.cpp:379-394 | The result and the state are those of Search.SearchFrom, and a failure changes nothing. |
| LayerList.HwcLayerList.TrySpriteCandidate | common/base/HwcLayerList.cpp:387-391 | One iteration either succeeds with the loop's final state, or undoes its record and leaves the outcome to the next position. |
| LayerList.HwcLayerList.AssignPrimaryPlane | common/base/HwcLayerList.cpp:396-450 | The result and the state are those of Placement.PlacePrimary, and a failure changes nothing. |
| LayerList.HwcLayerList.FindUnusedSprite | common/base/HwcLayerList.cpp:399-405 | The loop finds Placement.UnusedSprite, a sprite candidate that holds no record. |
| LayerList.HwcLayerList.PlaceTargetInFbOrder | common/base/HwcLayerList.cpp:432-444 | The result and the state are those of Placement.ScanForTarget from the first FB layer, and a failure changes nothing. |
| LayerList.HwcLayerList.PlaceTargetAt | common/base/HwcLayerList.cpp:433-442 | One iteration either places the target with the scan's final state, or changes nothing and leaves the outcome to the next FB layer. |
| LayerList.HwcLayerList.AssignPrimaryPlaneHelper | common/base/HwcLayerList.cpp:452-460 | The result and the state are those of Placement.PlacePrimaryAt. On failure the record is removed and the state is exactly as before. |
| LayerList.HwcLayerList.AttachPlanes | common/base/HwcLayerList.cpp:462-504 | The result and the state are those of Frames.Attach. When the plane manager refuses, nothing changes. |
| LayerList.HwcLayerList.CommitAll | common/base/HwcLayerList.cpp:477-503 | The commit loop and the clearing of mZOrderConfig leave the state Frames.CommitPrefix gives for the whole configuration. |
| LayerList.HwcLayerList.CommitOne | common/base/HwcLayerList.cpp:478-499 | One iteration of the commit loop does what Frames.CommitRecord says. |
| LayerList.HwcLayerList.AddZOrderLayer | common/base/HwcLayerList.cpp:572-592 | The returned record is Frames.NewRecord, and the state is Frames.AddRecord. |
| LayerList.HwcLayerList.RemoveZOrderLayer | common/base/HwcLayerList.cpp:594-607 | The state is Frames.RemoveRecord: the record is removed and the layer's flag cleared. |
| LayerList.HwcLayerList.SetupSmartComposition | common/base/HwcLayerList.cpp:609-636 | The state is Refresh.SmartComposed. |
| LayerList.HwcLayerList.FbCompositionType | common/base/HwcLayerList.cpp:611-620 | The first loop computes Refresh.SmartType, HWC_FRAMEBUFFER exactly when some FB layer was updated. |
| LayerList.HwcLayerList.ApplyFbComposition | common/base/HwcLayerList.cpp:624-635 | The second loop gives every FB and forced-FB layer of mFBLayers that type, leaving the state Refresh.SmartComposed. |
| LayerList.HwcLayerList.Update | common/base/HwcLayerList.cpp:638-669 | The result and the state are those of Refresh.Updated, and a rejected list changes nothing. |

## Left out

- The plane manager (`getFreePlanes`, `isValidZOrder`, `assignPlanes`, and which plane it
  gives each record), the display analyzer's `isOverlayAllowed` and the
  `PlaneCapabilities` checks are code outside the list. They are the fields of
  `Layers.Env`, and the model assumes they are deterministic functions of their
  arguments.
- `allocatePlanesV1` is compiled out by `#if 1`; only `allocatePlanesV2` is modelled.
- `dump`, `postFlip`, the trace logging, memory allocation and `delete`, the display
  index and the destructor are not modelled. The destructor only calls deinitialize.
- The internals of `HwcLayer` (`update`, `attachPlane`, `detachPlane`, `setZOrder` on a
  plane) are not part of this model. A layer's fields are updated directly, and
  `getZOrder` is taken to be the layer's index.
- Null layer pointers, null records and allocation failures in initialize and
  attachPlanes cannot arise in the model, so those checks are left out.
- Deinitialize: in the invalid composition type path of initialize, the source iterates
  up to mLayerCount, past the layers already created. The model reclaims the layers
  created so far.
- ZOrder.Insert: SortedVector is not part of this model, so where it puts a record among
  records of equal z-order is not known. The model puts it after them, and the positions
  stated by ZOrder.InsertPosition and the PlacementProps lemmas follow that choice.
- mFBLayers is assumed to be in layer-index order. Its declaration is not part of this
  model; useAsFrameBufferTarget (lines 506-554) indexes it by a layer's index, which
  only fits that order. Classification builds it in that order and Placement.ScanForTarget
  visits it in that order.
- LayerList.HwcLayerList.Initialize, Classify.Initialized and
  LayerList.HwcLayerList.constructor require that no layer before the last is
  HWC_OVERLAY (skipped) or HWC_FRAMEBUFFER_TARGET. useAsFrameBufferTarget indexes
  mFBLayers by layer index up to mLayerCount - 1, which is only in range when every
  layer but the last (the target) is in mFBLayers. The C++ indexes past the vector on
  other lists.
- Layers.CheckSupported models the usage check as written, so that check never rejects.
  No corrected variant is used by the rest of the model; the intended test
  (Layers.UsageRejectsIntended) is stated for comparison only.
- Placement.PlacePrimaryAt: its own contract states only that success leaves an empty
  configuration. PlacementProps.PlacePrimaryAtSucceeds, PlacePrimaryAtLayer,
  PlacePrimaryAtKeepsOthers and PlacePrimaryAtCommitsOthers state what it computes.
- Placement.ScanForTarget: its own contract states only that success leaves an empty
  configuration. PlacementProps.ScanForTargetWitness and ScanForTargetRefutes state
  which FB layer it settles on.
- Placement.PlacePrimary: its own contract states only that success leaves an empty
  configuration. The four PlacementProps branch lemmas state what each branch computes.
- Search.SearchTop: its own contract states only that success leaves an empty
  configuration. SearchProps.SearchTopIsLargestFeasible states what it computes.
- Search.SearchDescend: its own contract states only that success leaves an empty
  configuration. SearchProps.SearchDescendPicksLargest states what it computes.
- Search.SearchFrom: its own contract states only that success leaves an empty
  configuration. SearchProps.SearchFromIsExhaustive states what it computes.
- Search.SearchTry: its own contract states only that success leaves an empty
  configuration. SearchProps.SearchTryWitness and SearchTryRefutes state what it computes.
