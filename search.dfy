/** The plane-assignment search (assignOverlayPlanes and assignSpritePlanes, both
    overloads each): overlay candidates first, then sprite candidates, then the primary
    plane; for each plane class the largest plane count is tried first, and the
    candidates of one attempt are chosen at increasing positions, with backtracking. */
module Search {
  import opened Layers
  import opened Frames
  import opened Placement

  /** Which candidate vector a search level works on. */
  datatype Phase = OverlayPhase | SpritePhase

  function Candidates(f: Frame, ph: Phase): seq<nat>
  {
    match ph
    case OverlayPhase => f.overlays
    case SpritePhase => f.sprites
  }

  function PlaneOf(ph: Phase): PlaneType
  {
    match ph
    case OverlayPhase => PlaneOverlay
    case SpritePhase => PlaneSprite
  }

  /** Search levels run outermost first: overlay, sprite, primary. */
  function Rank(ph: Phase): nat
  {
    match ph
    case OverlayPhase => 2
    case SpritePhase => 1
  }

  /** The record for candidate i of the phase (at the layer's own z-order). */
  function AddCandidate(f: Frame, ph: Phase, i: nat): (g: Frame)
    requires Ready(f) && i < |Candidates(f, ph)|
    ensures Ready(g) && Candidates(g, ph) == Candidates(f, ph)
  {
    AddRecord(f, PlaneOf(ph), Candidates(f, ph)[i], -1)
  }

  /** What a phase does once its own planes are chosen: the overlay phase runs the
      sprite search, the sprite phase places the primary plane. */
  function AfterPhase(f: Frame, ph: Phase, env: Env): (r: Option<Frame>)
    requires Ready(f)
    ensures r.Some? ==> r.value.config == []
    decreases Rank(ph), 0, 0, 0
  {
    match ph
    case OverlayPhase => SearchTop(f, SpritePhase, env)
    case SpritePhase => PlacePrimary(f, env)
  }

  /** The number of planes the top level starts from: min(free planes, candidates). */
  function PlaneBudget(f: Frame, ph: Phase, env: Env): nat
  {
    var free := env.freePlanes(PlaneOf(ph));
    if free > |Candidates(f, ph)| then |Candidates(f, ph)| else free
  }

  /** assignOverlayPlanes() / assignSpritePlanes(). */
  function SearchTop(f: Frame, ph: Phase, env: Env): (r: Option<Frame>)
    requires Ready(f)
    ensures r.Some? ==> r.value.config == []
    decreases Rank(ph), 3, 0, 0
  {
    if |Candidates(f, ph)| == 0 then AfterPhase(f, ph, env)
    else if env.freePlanes(PlaneOf(ph)) == 0 then AfterPhase(f, ph, env)
    else SearchDescend(f, ph, env, PlaneBudget(f, ph, env))
  }

  /** The loop of the top level: plane counts k, k - 1, ..., 0, the first success wins. */
  function SearchDescend(f: Frame, ph: Phase, env: Env, k: nat): (r: Option<Frame>)
    requires Ready(f) && k <= |Candidates(f, ph)|
    ensures r.Some? ==> r.value.config == []
    decreases Rank(ph), 2, k, 0
  {
    match SearchFrom(f, ph, env, 0, k)
    case Some(g) => Some(g)
    case None => if k == 0 then None else SearchDescend(f, ph, env, k - 1)
  }

  /** assignOverlayPlanes(index, planeNumber) / assignSpritePlanes(index, planeNumber):
      choose n more candidates, from position index on. */
  function SearchFrom(f: Frame, ph: Phase, env: Env, index: nat, n: nat): (r: Option<Frame>)
    requires Ready(f) && index <= |Candidates(f, ph)|
    ensures r.Some? ==> r.value.config == []
    decreases Rank(ph), 1, n, |Candidates(f, ph)| - index + 2
  {
    if n == 0 then AfterPhase(f, ph, env) else SearchTry(f, ph, env, index, n)
  }

  /** The loop of SearchFrom from position i: add candidate i, recurse for the remaining
      n - 1 above it, and on failure undo and move on, while i <= size - n. */
  function SearchTry(f: Frame, ph: Phase, env: Env, i: nat, n: nat): (r: Option<Frame>)
    requires Ready(f) && i <= |Candidates(f, ph)| && n >= 1
    ensures r.Some? ==> r.value.config == []
    decreases Rank(ph), 1, n, |Candidates(f, ph)| - i + 1
  {
    if i > |Candidates(f, ph)| - n then None
    else
      match SearchFrom(AddCandidate(f, ph, i), ph, env, i + 1, n - 1)
      case Some(g) => Some(g)
      case None => SearchTry(f, ph, env, i + 1, n)
  }
}
