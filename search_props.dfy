/** What the search promises: every attempt adds a set of candidates chosen at strictly
    increasing positions; a failed attempt means no such choice works; and the top level
    settles on the largest plane count for which some choice works. Also the invariant
    the search keeps, which makes every undo exact. */
module SearchProps {
  import opened Layers
  import opened ZOrder
  import opened Frames
  import opened Placement
  import opened Search

  /** ps picks candidate positions in [lo, hi), in strictly increasing order. */
  predicate IsChoice(ps: seq<nat>, lo: nat, hi: nat)
  {
    && (forall j :: 0 <= j < |ps| ==> lo <= ps[j] < hi)
    && (forall j, j' :: 0 <= j < j' < |ps| ==> ps[j] < ps[j'])
  }

  /** The state after adding the records of the chosen candidates, lowest position first. */
  function AddAll(f: Frame, ph: Phase, ps: seq<nat>): (g: Frame)
    requires Ready(f) && forall j :: 0 <= j < |ps| ==> ps[j] < |Candidates(f, ph)|
    ensures Ready(g) && Candidates(g, ph) == Candidates(f, ph)
    decreases |ps|
  {
    if ps == [] then f else AddAll(AddCandidate(f, ph, ps[0]), ph, ps[1..])
  }

  lemma {:induction false} ChoiceFits(ps: seq<nat>, lo: nat, hi: nat)
    requires IsChoice(ps, lo, hi)
    ensures lo + |ps| <= hi || ps == []
  {
    if |ps| > 1 {
      assert IsChoice(ps[1..], ps[0] + 1, hi) by {
        forall j | 0 <= j < |ps[1..]| ensures ps[0] + 1 <= ps[1..][j] < hi {
          assert ps[1..][j] == ps[j + 1];
        }
        forall j, j' | 0 <= j < j' < |ps[1..]| ensures ps[1..][j] < ps[1..][j'] {
          assert ps[1..][j] == ps[j + 1] && ps[1..][j'] == ps[j' + 1];
        }
      }
      ChoiceFits(ps[1..], ps[0] + 1, hi);
    }
  }

  /** A choice starting with i: i followed by a choice above i. */
  lemma ChoiceSplit(ps: seq<nat>, i: nat, hi: nat)
    requires IsChoice(ps, i, hi) && ps != []
    ensures IsChoice(ps[1..], ps[0] + 1, hi)
    ensures ps[0] != i ==> IsChoice(ps, i + 1, hi)
  {
    forall j | 0 <= j < |ps[1..]| ensures ps[0] + 1 <= ps[1..][j] < hi {
      assert ps[1..][j] == ps[j + 1];
    }
    forall j, j' | 0 <= j < j' < |ps[1..]| ensures ps[1..][j] < ps[1..][j'] {
      assert ps[1..][j] == ps[j + 1] && ps[1..][j'] == ps[j' + 1];
    }
  }

  lemma ChoiceWiden(ps: seq<nat>, lo: nat, hi: nat)
    requires IsChoice(ps, lo + 1, hi)
    ensures IsChoice(ps, lo, hi)
  {
  }

  lemma ChoiceCons(i: nat, ps: seq<nat>, hi: nat)
    requires i < hi && IsChoice(ps, i + 1, hi)
    ensures IsChoice([i] + ps, i, hi) && ([i] + ps)[1..] == ps
  {
    var qs := [i] + ps;
    forall j, j' | 0 <= j < j' < |qs| ensures qs[j] < qs[j'] {
      if j > 0 {
        assert qs[j] == ps[j - 1] && qs[j'] == ps[j' - 1];
      } else {
        assert qs[j'] == ps[j' - 1];
      }
    }
  }

  /** The loop of assignXPlanes(index, n) from position i, when it succeeds: its result
      is that of the choice ps of n candidates from position i on. */
  lemma {:induction false} SearchTryWitness(f: Frame, ph: Phase, env: Env, i: nat, n: nat) returns (ps: seq<nat>)
    requires Ready(f) && i <= |Candidates(f, ph)| && n >= 1
    requires SearchTry(f, ph, env, i, n).Some?
    ensures IsChoice(ps, i, |Candidates(f, ph)|) && |ps| == n
    ensures AfterPhase(AddAll(f, ph, ps), ph, env) == SearchTry(f, ph, env, i, n)
    decreases n, |Candidates(f, ph)| - i, 1
  {
    SearchTryStep(f, ph, env, i, n);
    if i > |Candidates(f, ph)| - n {
      assert false;
    }
    if SearchFrom(AddCandidate(f, ph, i), ph, env, i + 1, n - 1).Some? {
      ps := WitnessTakesCandidate(f, ph, env, i, n);
    } else {
      ps := SearchTryWitness(f, ph, env, i + 1, n);
      ChoiceWiden(ps, i, |Candidates(f, ph)|);
    }
  }

  /** The success comes from taking candidate i: the choice is i followed by the choice
      of the remaining n - 1 above it. */
  lemma {:induction false} WitnessTakesCandidate(f: Frame, ph: Phase, env: Env, i: nat, n: nat) returns (ps: seq<nat>)
    requires Ready(f) && n >= 1 && i + n <= |Candidates(f, ph)|
    requires SearchFrom(AddCandidate(f, ph, i), ph, env, i + 1, n - 1).Some?
    ensures IsChoice(ps, i, |Candidates(f, ph)|) && |ps| == n && ps[0] == i
    ensures AfterPhase(AddAll(f, ph, ps), ph, env) == SearchFrom(AddCandidate(f, ph, i), ph, env, i + 1, n - 1)
    decreases n, |Candidates(f, ph)| - i, 0
  {
    var g := AddCandidate(f, ph, i);
    var rest: seq<nat>;
    if n == 1 {
      rest := [];
      assert AddAll(g, ph, rest) == g;
    } else {
      rest := SearchTryWitness(g, ph, env, i + 1, n - 1);
    }
    ChoiceExtends(f, ph, i, rest);
    ps := [i] + rest;
  }

  /** A choice above i with i put in front of it is a choice from i whose records are
      those of candidate i followed by those of the rest. */
  lemma ChoiceExtends(f: Frame, ph: Phase, i: nat, ps: seq<nat>)
    requires Ready(f) && i < |Candidates(f, ph)| && IsChoice(ps, i + 1, |Candidates(f, ph)|)
    ensures IsChoice([i] + ps, i, |Candidates(f, ph)|)
    ensures AddAll(f, ph, [i] + ps) == AddAll(AddCandidate(f, ph, i), ph, ps)
  {
    ChoiceCons(i, ps, |Candidates(f, ph)|);
  }

  /** The loop of assignXPlanes(index, n) from position i, when it fails: every choice of
      n candidates from position i on fails. */
  lemma {:induction false} SearchTryRefutes(f: Frame, ph: Phase, env: Env, i: nat, n: nat, ps: seq<nat>)
    requires Ready(f) && i <= |Candidates(f, ph)| && n >= 1
    requires SearchTry(f, ph, env, i, n).None?
    requires IsChoice(ps, i, |Candidates(f, ph)|) && |ps| == n
    ensures AfterPhase(AddAll(f, ph, ps), ph, env).None?
    decreases n, |Candidates(f, ph)| - i, 2
  {
    var size := |Candidates(f, ph)|;
    ChoiceFits(ps, i, size);
    ChoiceSplit(ps, i, size);
    SearchTryStep(f, ph, env, i, n);
    if ps[0] == i {
      RefuteTakesCandidate(f, ph, env, i, n, ps);
    } else {
      SearchTryRefutes(f, ph, env, i + 1, n, ps);
    }
  }

  /** A failed attempt at candidate i refutes every choice that starts with i. */
  lemma {:induction false} RefuteTakesCandidate(f: Frame, ph: Phase, env: Env, i: nat, n: nat, ps: seq<nat>)
    requires Ready(f) && n >= 1 && i + n <= |Candidates(f, ph)|
    requires SearchFrom(AddCandidate(f, ph, i), ph, env, i + 1, n - 1).None?
    requires IsChoice(ps, i, |Candidates(f, ph)|) && |ps| == n && ps[0] == i
    requires IsChoice(ps[1..], i + 1, |Candidates(f, ph)|)
    ensures AfterPhase(AddAll(f, ph, ps), ph, env).None?
    decreases n, |Candidates(f, ph)| - i, 1
  {
    if n == 1 {
      RefuteLastCandidate(f, ph, env, i, ps);
    } else {
      RefuteLaterCandidates(f, ph, env, i, n, ps);
    }
  }

  /** ... when more candidates are to be chosen above i, because the search above i
      failed for all of them. */
  lemma {:induction false} RefuteLaterCandidates(f: Frame, ph: Phase, env: Env, i: nat, n: nat, ps: seq<nat>)
    requires Ready(f) && n >= 2 && i + n <= |Candidates(f, ph)|
    requires SearchTry(AddCandidate(f, ph, i), ph, env, i + 1, n - 1).None?
    requires IsChoice(ps, i, |Candidates(f, ph)|) && |ps| == n && ps[0] == i
    requires IsChoice(ps[1..], i + 1, |Candidates(f, ph)|)
    ensures AfterPhase(AddAll(f, ph, ps), ph, env).None?
    decreases n, |Candidates(f, ph)| - i, 0
  {
    var g := AddCandidate(f, ph, i);
    assert AddAll(f, ph, ps) == AddAll(g, ph, ps[1..]);
    SearchTryRefutes(g, ph, env, i + 1, n - 1, ps[1..]);
  }

  /** ... in particular when i is the last candidate to choose. */
  lemma RefuteLastCandidate(f: Frame, ph: Phase, env: Env, i: nat, ps: seq<nat>)
    requires Ready(f) && i < |Candidates(f, ph)|
    requires AfterPhase(AddCandidate(f, ph, i), ph, env).None?
    requires ps == [i]
    ensures AfterPhase(AddAll(f, ph, ps), ph, env).None?
  {
    var g := AddCandidate(f, ph, i);
    assert ps[1..] == [];
    assert AddAll(f, ph, ps) == AddAll(g, ph, []) == g;
  }

  /** One step of the loop of SearchTry: past size - n nothing is left to try, a
      successful attempt at candidate i is the outcome, and a failed one leaves the
      outcome to the candidates above it. */
  lemma SearchTryStep(f: Frame, ph: Phase, env: Env, i: nat, n: nat)
    requires Ready(f) && i <= |Candidates(f, ph)| && n >= 1
    ensures i > |Candidates(f, ph)| - n ==> SearchTry(f, ph, env, i, n).None?
    ensures i <= |Candidates(f, ph)| - n && SearchFrom(AddCandidate(f, ph, i), ph, env, i + 1, n - 1).Some? ==>
      SearchTry(f, ph, env, i, n) == SearchFrom(AddCandidate(f, ph, i), ph, env, i + 1, n - 1)
    ensures i <= |Candidates(f, ph)| - n && SearchFrom(AddCandidate(f, ph, i), ph, env, i + 1, n - 1).None? ==>
      SearchTry(f, ph, env, i, n) == SearchTry(f, ph, env, i + 1, n)
  {
  }

  /** Past size - n the loop of SearchTry has nothing left to try. */
  lemma SearchTryExhausted(f: Frame, ph: Phase, env: Env, i: nat, n: nat)
    requires Ready(f) && n >= 1 && |Candidates(f, ph)| - n < i <= |Candidates(f, ph)|
    ensures SearchTry(f, ph, env, i, n).None?
  {
  }

  /** The same for assignXPlanes(index, n) itself, n = 0 included, in both directions:
      a success is the result of some choice of n candidates from index on, and a failure
      means that every such choice fails. */
  lemma SearchFromIsExhaustive(f: Frame, ph: Phase, env: Env, index: nat, n: nat)
    requires Ready(f) && index <= |Candidates(f, ph)|
    ensures SearchFrom(f, ph, env, index, n).Some? ==>
      exists ps :: (IsChoice(ps, index, |Candidates(f, ph)|) && |ps| == n
        && AfterPhase(AddAll(f, ph, ps), ph, env) == SearchFrom(f, ph, env, index, n))
    ensures SearchFrom(f, ph, env, index, n).None? ==>
      forall ps :: (IsChoice(ps, index, |Candidates(f, ph)|) && |ps| == n ==>
        AfterPhase(AddAll(f, ph, ps), ph, env).None?)
  {
    if SearchFrom(f, ph, env, index, n).Some? {
      var ps := SearchFromWitness(f, ph, env, index, n);
    } else {
      forall ps | IsChoice(ps, index, |Candidates(f, ph)|) && |ps| == n
        ensures AfterPhase(AddAll(f, ph, ps), ph, env).None?
      {
        SearchFromRefutes(f, ph, env, index, n, ps);
      }
    }
  }

  /** The success half of SearchFromIsExhaustive, with the choice made explicit. */
  lemma SearchFromWitness(f: Frame, ph: Phase, env: Env, index: nat, n: nat) returns (ps: seq<nat>)
    requires Ready(f) && index <= |Candidates(f, ph)|
    requires SearchFrom(f, ph, env, index, n).Some?
    ensures IsChoice(ps, index, |Candidates(f, ph)|) && |ps| == n
    ensures AfterPhase(AddAll(f, ph, ps), ph, env) == SearchFrom(f, ph, env, index, n)
  {
    if n == 0 {
      ps := [];
      assert AddAll(f, ph, ps) == f;
    } else {
      ps := SearchTryWitness(f, ph, env, index, n);
    }
  }

  /** The failure half of SearchFromIsExhaustive, for one choice. */
  lemma SearchFromRefutes(f: Frame, ph: Phase, env: Env, index: nat, n: nat, ps: seq<nat>)
    requires Ready(f) && index <= |Candidates(f, ph)|
    requires SearchFrom(f, ph, env, index, n).None?
    requires IsChoice(ps, index, |Candidates(f, ph)|) && |ps| == n
    ensures AfterPhase(AddAll(f, ph, ps), ph, env).None?
  {
    if n == 0 {
      assert ps == [];
      assert AddAll(f, ph, ps) == f;
    } else {
      SearchTryRefutes(f, ph, env, index, n, ps);
    }
  }

  /** The plane count the descending loop of the top level stops at: k itself when the
      attempt with k planes succeeds or k is 0, otherwise where the loop from k - 1 stops. */
  function StopCount(f: Frame, ph: Phase, env: Env, k: nat): (j: nat)
    requires Ready(f) && k <= |Candidates(f, ph)|
    ensures j <= k
  {
    if k == 0 || SearchFrom(f, ph, env, 0, k).Some? then k else StopCount(f, ph, env, k - 1)
  }

  /** The descending loop of the top level returns the result of the largest count j <= k
      whose attempt succeeds, and fails only when every count up to k fails. */
  lemma {:induction false} SearchDescendPicksLargest(f: Frame, ph: Phase, env: Env, k: nat)
    requires Ready(f) && k <= |Candidates(f, ph)|
    ensures SearchDescend(f, ph, env, k) == SearchFrom(f, ph, env, 0, StopCount(f, ph, env, k))
    ensures forall j' :: StopCount(f, ph, env, k) < j' <= k ==> SearchFrom(f, ph, env, 0, j').None?
    ensures SearchDescend(f, ph, env, k).None? ==>
      forall j :: 0 <= j <= k ==> SearchFrom(f, ph, env, 0, j).None?
  {
    if SearchFrom(f, ph, env, 0, k).None? && k > 0 {
      SearchDescendPicksLargest(f, ph, env, k - 1);
    }
  }

  /** assignOverlayPlanes() / assignSpritePlanes(): a success is the result of some choice
      of at most min(free planes, candidates) candidates, and no choice of more candidates
      within that bound succeeds; a failure means no choice within the bound succeeds. */
  lemma SearchTopIsLargestFeasible(f: Frame, ph: Phase, env: Env)
    requires Ready(f)
    ensures SearchTop(f, ph, env).Some? ==>
      exists ps :: IsChoice(ps, 0, |Candidates(f, ph)|) && |ps| <= PlaneBudget(f, ph, env)
        && AfterPhase(AddAll(f, ph, ps), ph, env) == SearchTop(f, ph, env)
        && forall qs :: IsChoice(qs, 0, |Candidates(f, ph)|) && |ps| < |qs| <= PlaneBudget(f, ph, env)
             ==> AfterPhase(AddAll(f, ph, qs), ph, env).None?
    ensures SearchTop(f, ph, env).None? ==>
      forall qs :: IsChoice(qs, 0, |Candidates(f, ph)|) && |qs| <= PlaneBudget(f, ph, env)
        ==> AfterPhase(AddAll(f, ph, qs), ph, env).None?
  {
    if |Candidates(f, ph)| == 0 || env.freePlanes(PlaneOf(ph)) == 0 {
      NoBudgetSkipsPhase(f, ph, env);
    } else if SearchTop(f, ph, env).Some? {
      DescendSuccessIsLargest(f, ph, env);
    } else {
      DescendFailureRefutesAll(f, ph, env);
    }
  }

  /** With no candidate or no free plane the only choice is the empty one. */
  lemma NoBudgetSkipsPhase(f: Frame, ph: Phase, env: Env)
    requires Ready(f) && (|Candidates(f, ph)| == 0 || env.freePlanes(PlaneOf(ph)) == 0)
    ensures PlaneBudget(f, ph, env) == 0 && SearchTop(f, ph, env) == AfterPhase(f, ph, env)
    ensures forall qs :: (IsChoice(qs, 0, |Candidates(f, ph)|) && |qs| <= PlaneBudget(f, ph, env)
      ==> qs == [] && AddAll(f, ph, qs) == f)
  {
    assert AddAll(f, ph, []) == f;
  }

  /** A successful descending loop stops at the largest count some choice achieves. */
  lemma DescendSuccessIsLargest(f: Frame, ph: Phase, env: Env)
    requires Ready(f) && |Candidates(f, ph)| > 0 && env.freePlanes(PlaneOf(ph)) > 0
    requires SearchTop(f, ph, env).Some?
    ensures exists ps :: (IsChoice(ps, 0, |Candidates(f, ph)|) && |ps| <= PlaneBudget(f, ph, env)
      && AfterPhase(AddAll(f, ph, ps), ph, env) == SearchTop(f, ph, env)
      && forall qs :: (IsChoice(qs, 0, |Candidates(f, ph)|) && |ps| < |qs| <= PlaneBudget(f, ph, env)
           ==> AfterPhase(AddAll(f, ph, qs), ph, env).None?))
  {
    var size := |Candidates(f, ph)|;
    var budget := PlaneBudget(f, ph, env);
    SearchDescendPicksLargest(f, ph, env, budget);
    var j := StopCount(f, ph, env, budget);
    var ps := SearchFromWitness(f, ph, env, 0, j);
    forall qs | IsChoice(qs, 0, size) && |ps| < |qs| <= budget
      ensures AfterPhase(AddAll(f, ph, qs), ph, env).None?
    {
      SearchFromRefutes(f, ph, env, 0, |qs|, qs);
    }
    assert |ps| <= budget && AfterPhase(AddAll(f, ph, ps), ph, env) == SearchTop(f, ph, env);
  }

  /** A failed descending loop means that no choice within the budget works. */
  lemma DescendFailureRefutesAll(f: Frame, ph: Phase, env: Env)
    requires Ready(f) && |Candidates(f, ph)| > 0 && env.freePlanes(PlaneOf(ph)) > 0
    requires SearchTop(f, ph, env).None?
    ensures forall qs :: (IsChoice(qs, 0, |Candidates(f, ph)|) && |qs| <= PlaneBudget(f, ph, env)
      ==> AfterPhase(AddAll(f, ph, qs), ph, env).None?)
  {
    var budget := PlaneBudget(f, ph, env);
    SearchDescendPicksLargest(f, ph, env, budget);
    forall qs | IsChoice(qs, 0, |Candidates(f, ph)|) && |qs| <= budget
      ensures AfterPhase(AddAll(f, ph, qs), ph, env).None?
    {
      SearchFromRefutes(f, ph, env, 0, |qs|, qs);
    }
  }

  // ---------------------------------------------------------------------------------
  // The invariant of the search, which makes every removeZOrderLayer an exact undo.

  predicate Increasing(s: seq<nat>)
  {
    forall i, j :: 0 <= i < j < |s| ==> s[i] < s[j]
  }

  /** What classification establishes: candidates in list order, no layer in both
      candidate vectors, and the framebuffer target in neither. */
  predicate Classified(f: Frame)
  {
    && Ready(f)
    && Increasing(f.overlays) && Increasing(f.sprites)
    && (forall L :: L in f.overlays ==> L !in f.sprites)
    && f.fbt.value !in f.overlays && f.fbt.value !in f.sprites
  }

  /** A layer that may hold a record while the search of phase ph works from position
      index: overlay candidates below index in the overlay phase; any overlay candidate and
      sprite candidates below index in the sprite phase. */
  predicate MayHoldRecord(f: Frame, ph: Phase, index: nat, L: nat)
    requires index <= |Candidates(f, ph)|
  {
    match ph
    case OverlayPhase => L in f.overlays[..index]
    case SpritePhase => L in f.overlays || L in f.sprites[..index]
  }

  predicate PhaseInv(f: Frame, ph: Phase, index: nat)
  {
    && Classified(f)
    && Consistent(f)
    && index <= |Candidates(f, ph)|
    && forall L :: L in LayersOf(f.config) ==> MayHoldRecord(f, ph, index, L)
  }

  /** What the primary placement needs: the bookkeeping invariant and a framebuffer
      target that holds no record. */
  predicate PrimaryInv(f: Frame)
  {
    Ready(f) && Consistent(f) && !f.layers[f.fbt.value].candidate
  }

  /** Candidate i at or above index holds no record yet, and adding it keeps the invariant
      with the search moving on to i + 1. */
  lemma AddCandidateKeepsPhaseInv(f: Frame, ph: Phase, index: nat, i: nat)
    requires PhaseInv(f, ph, index) && index <= i < |Candidates(f, ph)|
    ensures !f.layers[Candidates(f, ph)[i]].candidate
    ensures PhaseInv(AddCandidate(f, ph, i), ph, i + 1)
  {
    var C := Candidates(f, ph);
    var L := C[i];
    assert L !in C[..index] by {
      forall k | 0 <= k < index ensures C[..index][k] != L {
        assert C[k] < C[i];
      }
    }
    assert L !in LayersOf(f.config) by {
      if ph == SpritePhase {
        assert L in f.sprites;
      }
    }
    var g := AddCandidate(f, ph, i);
    AddRecordEffect(f, PlaneOf(ph), L, -1);
    InsertContents(f.config, NewRecord(f, PlaneOf(ph), L, -1));
    assert LayersOf(g.config) == LayersOf(f.config) + {L};
    forall K | K in LayersOf(g.config) ensures MayHoldRecord(g, ph, i + 1, K) {
      if K != L {
        assert MayHoldRecord(f, ph, index, K);
        if ph == OverlayPhase || K !in f.overlays {
          assert K in C[..index];
          assert K in C[..i + 1];
        }
      } else {
        assert C[..i + 1][i] == L;
      }
    }
  }

  /** The overlay phase hands over to the sprite phase with the invariant at position 0. */
  lemma OverlayPhaseHandsOver(f: Frame, index: nat)
    requires PhaseInv(f, OverlayPhase, index)
    ensures PhaseInv(f, SpritePhase, 0)
  {
    forall L | L in LayersOf(f.config) ensures MayHoldRecord(f, SpritePhase, 0, L) {
      assert L in f.overlays[..index];
    }
  }

  /** The sprite phase hands over to the primary placement. */
  lemma SpritePhaseHandsOver(f: Frame, index: nat)
    requires PhaseInv(f, SpritePhase, index)
    ensures PrimaryInv(f)
  {
    var t := f.fbt.value;
    forall L | L in LayersOf(f.config) ensures L != t {
      assert MayHoldRecord(f, SpritePhase, index, L);
      assert L in f.sprites[..index] ==> L in f.sprites;
    }
  }

  /** At the start of either top level with no overlay candidate chosen, the configuration
      is empty: what the code logs as "ZOrder config is not cleaned up!" cannot happen. */
  lemma StartOfSearchHasEmptyConfig(f: Frame, ph: Phase)
    requires PhaseInv(f, ph, 0) && (ph == SpritePhase ==> |f.overlays| == 0)
    ensures f.config == []
  {
    assert LayersOf(f.config) == {};
    NoLayersMeansEmpty(f.config);
  }
}
