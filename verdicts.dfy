/** The verdicts the harness requires of the engines for the mutex protocol,
    stated as facts about the protocol itself.

    - A safety check (k-induction, tests/test-mutex.cpp:41-100 and 216-261;
      coverability, 349-394) answers true exactly when the property holds in
      every state reachable from Init: Invariant below.
    - The bounded LTL check with bound k (102-190 and 263-330, k = 4)
      unrolls runs of exactly k steps from Init. G(p) holds when p holds at
      every step of every such run; F(p) is read universally, as holding when
      every such run meets p at some step.

    Every lemma is stated for all three encodings of the transition
    relation, which is why the harness expects the same verdicts from each. */
module Verdicts {
  import opened Mutex

  // ---------------------------------------------------------------------
  // The properties of the harness, over one state
  // ---------------------------------------------------------------------

  /** (!(p2 > 0 && p5 > 0)) */
  predicate MutualExclusion(s: State) { !(s.p2 > 0 && s.p5 > 0) }

  /** (p2 > 0 && p5 > 0) */
  predicate BothCritical(s: State) { s.p2 > 0 && s.p5 > 0 }

  /** (p2 > 0 || p5 > 0) */
  predicate SomeCritical(s: State) { s.p2 > 0 || s.p5 > 0 }

  /** ((p3 > 0) -> (p2 == 0 && p5 == 0)), named both tokenUsed and
      tokenUnused in the harness. */
  predicate TokenUnused(s: State) { s.p3 > 0 ==> s.p2 == 0 && s.p5 == 0 }

  /** ((p3 == 0) -> (p2 == 1 && p5 == 1)) */
  predicate BadTokenUsed(s: State) { s.p3 == 0 ==> s.p2 == 1 && s.p5 == 1 }

  /** (p2 > 0) */
  predicate FirstCritical(s: State) { s.p2 > 0 }

  /** (p5 > 0) */
  predicate SecondCritical(s: State) { s.p5 > 0 }

  // ---------------------------------------------------------------------
  // Safety verdicts
  // ---------------------------------------------------------------------

  ghost predicate Invariant(enc: Encoding, P: State -> bool)
  {
    forall n: nat, s :: ReachableIn(enc, n, s) ==> P(s)
  }

  /** The state after process 1 enters (action t[1] from Init). */
  const FirstEntered := State(0, 1, 0, 1, 0)

  /** The state after process 2 enters (action t[3] from Init). */
  const SecondEntered := State(1, 0, 0, 0, 1)

  /** Only t[1] and t[3] are enabled in Init, so its successors are exactly
      the two states where one process has entered. */
  lemma InitSuccessors(s': State)
    ensures Next(Init, s') <==> s' == FirstEntered || s' == SecondEntered
  {
    if s' == FirstEntered {
      assert Fires(1, Init, s');
    }
    if s' == SecondEntered {
      assert Fires(3, Init, s');
    }
  }

  lemma FiresIsStep(enc: Encoding, a: ActionId, s: State, s': State)
    requires Fires(a, s, s')
    ensures Step(enc, s, s')
  {
    StepMatchesNext(enc, s, s');
  }

  lemma EnteringSteps(enc: Encoding)
    ensures Step(enc, Init, FirstEntered) && Step(enc, FirstEntered, Init)
    ensures Step(enc, Init, SecondEntered) && Step(enc, SecondEntered, Init)
  {
    FiresIsStep(enc, 1, Init, FirstEntered);
    FiresIsStep(enc, 2, FirstEntered, Init);
    FiresIsStep(enc, 3, Init, SecondEntered);
    FiresIsStep(enc, 4, SecondEntered, Init);
  }

  /** !(p2 > 0 && p5 > 0) holds in every reachable state. */
  lemma MutualExclusionHolds(enc: Encoding)
    ensures Invariant(enc, MutualExclusion)
  {
    forall n: nat, s | ReachableIn(enc, n, s)
      ensures MutualExclusion(s)
    {
      ReachableSatisfiesInv(enc, n, s);
    }
  }

  /** (p3 > 0) -> (p2 == 0 && p5 == 0) holds in every reachable state. */
  lemma TokenUnusedHolds(enc: Encoding)
    ensures Invariant(enc, TokenUnused)
  {
    forall n: nat, s | ReachableIn(enc, n, s)
      ensures TokenUnused(s)
    {
      ReachableSatisfiesInv(enc, n, s);
    }
  }

  /** p2 > 0 && p5 > 0 and p2 > 0 || p5 > 0 both fail in Init: a
      counterexample of length 0. */
  lemma CriticalRefutedInInit(enc: Encoding)
    ensures ReachableIn(enc, 0, Init) && !BothCritical(Init) && !SomeCritical(Init)
    ensures !Invariant(enc, BothCritical) && !Invariant(enc, SomeCritical)
  {
    assert ReachableIn(enc, 0, Init);
  }

  /** (p3 == 0) -> (p2 == 1 && p5 == 1) fails after one firing of t[1]. */
  lemma BadTokenUsedRefuted(enc: Encoding)
    ensures ReachableIn(enc, 1, FirstEntered) && !BadTokenUsed(FirstEntered)
    ensures !Invariant(enc, BadTokenUsed)
  {
    EnteringSteps(enc);
    assert ReachableIn(enc, 0, Init);
    assert ReachableIn(enc, 1, FirstEntered);
  }

  /** Mutual exclusion alone is not inductive: it holds in a state from which
      t[3] leads to both processes being critical. The invariant of the
      model is what rules that state out. */
  lemma MutualExclusionNotInductive()
    ensures MutualExclusion(State(0, 1, 1, 1, 0)) && !Inv(State(0, 1, 1, 1, 0))
    ensures Fires(3, State(0, 1, 1, 1, 0), State(0, 1, 0, 0, 1))
    ensures !MutualExclusion(State(0, 1, 0, 0, 1))
  {
  }

  // ---------------------------------------------------------------------
  // Bounded LTL verdicts
  // ---------------------------------------------------------------------

  /** ss is a run from Init: consecutive states are related by the
      encoding's step. */
  ghost predicate IsRun(enc: Encoding, ss: seq<State>)
  {
    |ss| >= 1 && ss[0] == Init &&
    forall i | 0 <= i < |ss| - 1 :: Step(enc, ss[i], ss[i + 1])
  }

  /** G(P) with bound k. */
  ghost predicate BoundedGlobally(enc: Encoding, k: nat, P: State -> bool)
  {
    forall ss | IsRun(enc, ss) && |ss| == k + 1 :: forall i | 0 <= i < |ss| :: P(ss[i])
  }

  /** F(P) with bound k, read universally over runs. */
  ghost predicate BoundedEventually(enc: Encoding, k: nat, P: State -> bool)
  {
    forall ss | IsRun(enc, ss) && |ss| == k + 1 :: exists i | 0 <= i < |ss| :: P(ss[i])
  }

  lemma {:induction false} RunStateReachable(enc: Encoding, ss: seq<State>, i: nat)
    requires IsRun(enc, ss) && i < |ss|
    ensures ReachableIn(enc, i, ss[i])
  {
    if i > 0 {
      RunStateReachable(enc, ss, i - 1);
      assert Step(enc, ss[i - 1], ss[i]);
    }
  }

  /** The run of k steps that lets one process enter and leave again and
      again, and never moves the other. */
  function Cycle(entered: State, k: nat): (ss: seq<State>)
    ensures |ss| == k + 1 && ss[0] == Init
  {
    seq(k + 1, i requires 0 <= i <= k => if i % 2 == 0 then Init else entered)
  }

  lemma CycleIsRun(enc: Encoding, entered: State, k: nat)
    requires entered == FirstEntered || entered == SecondEntered
    ensures IsRun(enc, Cycle(entered, k))
  {
    var ss := Cycle(entered, k);
    var enter: ActionId, leave: ActionId := if entered == FirstEntered then 1 else 3, if entered == FirstEntered then 2 else 4;
    forall i | 0 <= i < |ss| - 1
      ensures Step(enc, ss[i], ss[i + 1])
    {
      if i % 2 == 0 {
        assert ss[i] == Init && ss[i + 1] == entered;
        FiresIsStep(enc, enter, Init, entered);
      } else {
        assert ss[i] == entered && ss[i + 1] == Init;
        FiresIsStep(enc, leave, entered, Init);
      }
    }
  }

  /** G(!(p2 > 0 && p5 > 0)) holds at every bound. */
  lemma GloballyMutualExclusion(enc: Encoding, k: nat)
    ensures BoundedGlobally(enc, k, MutualExclusion)
  {
    forall ss, i | IsRun(enc, ss) && |ss| == k + 1 && 0 <= i < |ss|
      ensures MutualExclusion(ss[i])
    {
      RunStateReachable(enc, ss, i);
      ReachableSatisfiesInv(enc, i, ss[i]);
    }
  }

  /** G((p3 > 0) -> (p2 == 0 && p5 == 0)) holds at every bound. */
  lemma GloballyTokenUnused(enc: Encoding, k: nat)
    ensures BoundedGlobally(enc, k, TokenUnused)
  {
    forall ss, i | IsRun(enc, ss) && |ss| == k + 1 && 0 <= i < |ss|
      ensures TokenUnused(ss[i])
    {
      RunStateReachable(enc, ss, i);
      ReachableSatisfiesInv(enc, i, ss[i]);
    }
  }

  /** G(p2 > 0 && p5 > 0) and G(p2 > 0 || p5 > 0) fail at every bound:
      every run starts in Init, and runs of every length exist. */
  lemma GloballyCriticalRefuted(enc: Encoding, k: nat)
    ensures !BoundedGlobally(enc, k, BothCritical)
    ensures !BoundedGlobally(enc, k, SomeCritical)
  {
    CycleIsRun(enc, FirstEntered, k);
    var ss := Cycle(FirstEntered, k);
    assert !BothCritical(ss[0]) && !SomeCritical(ss[0]);
  }

  /** G((p3 == 0) -> (p2 == 1 && p5 == 1)) fails exactly when the bound
      allows one step. */
  lemma GloballyBadTokenUsed(enc: Encoding, k: nat)
    ensures BoundedGlobally(enc, k, BadTokenUsed) <==> k == 0
  {
    if k == 0 {
      forall ss, i | IsRun(enc, ss) && |ss| == 1 && 0 <= i < |ss|
        ensures BadTokenUsed(ss[i])
      {
        assert ss[i] == Init;
      }
    } else {
      CycleIsRun(enc, FirstEntered, k);
      var ss := Cycle(FirstEntered, k);
      assert !BadTokenUsed(ss[1]);
    }
  }

  /** F(p2 > 0) fails at every bound: process 2 may enter and leave forever. */
  lemma EventuallyFirstCriticalRefuted(enc: Encoding, k: nat)
    ensures !BoundedEventually(enc, k, FirstCritical)
  {
    CycleIsRun(enc, SecondEntered, k);
    var ss := Cycle(SecondEntered, k);
    assert forall i | 0 <= i < |ss| :: !FirstCritical(ss[i]);
  }

  /** F(p5 > 0) fails at every bound: process 1 may enter and leave forever. */
  lemma EventuallySecondCriticalRefuted(enc: Encoding, k: nat)
    ensures !BoundedEventually(enc, k, SecondCritical)
  {
    CycleIsRun(enc, FirstEntered, k);
    var ss := Cycle(FirstEntered, k);
    assert forall i | 0 <= i < |ss| :: !SecondCritical(ss[i]);
  }

  /** F(p2 > 0 || p5 > 0) holds exactly when the bound allows one step:
      whatever Init does first, some process is then critical. */
  lemma EventuallySomeCritical(enc: Encoding, k: nat)
    ensures BoundedEventually(enc, k, SomeCritical) <==> k >= 1
  {
    if k == 0 {
      assert IsRun(enc, [Init]);
      assert !SomeCritical(Init);
    } else {
      forall ss | IsRun(enc, ss) && |ss| == k + 1
        ensures SomeCritical(ss[1])
      {
        assert Step(enc, ss[0], ss[1]);
        StepMatchesNext(enc, Init, ss[1]);
        InitSuccessors(ss[1]);
      }
    }
  }

  /** The table of tests/test-mutex.cpp for the safety checks, for each of
      the three encodings. */
  lemma SafetyVerdicts(enc: Encoding)
    ensures Invariant(enc, MutualExclusion)
    ensures !Invariant(enc, BothCritical)
    ensures !Invariant(enc, SomeCritical)
    ensures Invariant(enc, TokenUnused)
    ensures !Invariant(enc, BadTokenUsed)
  {
    MutualExclusionHolds(enc);
    CriticalRefutedInInit(enc);
    TokenUnusedHolds(enc);
    BadTokenUsedRefuted(enc);
  }

  /** The table of tests/test-mutex.cpp for the LTL checks at bound 4. */
  lemma LtlVerdictsAtBoundFour(enc: Encoding)
    ensures BoundedGlobally(enc, 4, MutualExclusion)
    ensures !BoundedGlobally(enc, 4, BothCritical)
    ensures !BoundedGlobally(enc, 4, SomeCritical)
    ensures BoundedGlobally(enc, 4, TokenUnused)
    ensures !BoundedGlobally(enc, 4, BadTokenUsed)
    ensures !BoundedEventually(enc, 4, FirstCritical)
    ensures !BoundedEventually(enc, 4, SecondCritical)
    ensures BoundedEventually(enc, 4, SomeCritical)
  {
    GloballyMutualExclusion(enc, 4);
    GloballyCriticalRefuted(enc, 4);
    GloballyTokenUnused(enc, 4);
    GloballyBadTokenUsed(enc, 4);
    EventuallyFirstCriticalRefuted(enc, 4);
    EventuallySecondCriticalRefuted(enc, 4);
    EventuallySomeCritical(enc, 4);
  }
}
