# Token-passing mutual exclusion, as checked by the verification-algorithms harness

The harness `tests/test-mutex.cpp` of this model-checking library builds one
small system and asks four engines (k-induction, bounded LTL model checking,
IC3, Petri-net coverability) about it. The system is a two-process,
token-passing mutual-exclusion protocol over five integer places `p1 .. p5`:
`p1`/`p4` mean process 1/2 is idle, `p2`/`p5` that it is in its critical
section, `p3` that the token is free. Four guarded actions `t[1] .. t[4]` let
a process take the token and enter, or leave and return it. The initial state
is `(1,0,1,1,0)`.

The harness gives the transition relation in three encodings: an "exactly
one action" disjunction, a pseudo-boolean sum equal to 1, and a Petri-net
incidence matrix. It builds the symbol table and the two textual encodings
with small loops, and it states the verdicts the engines must return.

This Dafny project models:

- `Symbols` (`symbols.dfy`): the symbol table and the loop that declares it;
  the declared names are exactly `p1 .. p5`, all integer-typed and distinct,
  and the names the harness uses to provoke an undeclared-variable error are
  absent.
- `TransitionText` (`transition_text.dfy`): the two string builders as loops.
  Each is proved to produce the rendering of a small formula tree. The tree's
  meaning is then proved: the exclusive disjunction and the pseudo-boolean
  "sum equals one" both hold exactly when one action holds. When no two
  actions can hold together, that is the plain disjunction.
- `PetriNet` (`petri_net.dfy`): a net in incidence-matrix form, its
  enabledness and firing rule, and the fact that firing keeps markings
  non-negative.
- `Mutex` (`mutex.dfy`): the protocol (state, initial state, guards,
  updates), the three encodings as one-step relations shown equal to the
  plain disjunction of the actions, each matrix column shown equal to its
  action, reachability in `n` steps, and the inductive strengthening
  `p1+p2 == 1 && p4+p5 == 1 && p2+p3+p5 == 1 && all places >= 0` that every
  reachable state satisfies.
- `Verdicts` (`verdicts.dfy`): every verdict of the harness, as a lemma about
  the protocol, for each of the three encodings. Properties that hold are
  proved over all reachable states. Refuted ones get a concrete reachable
  counterexample or run. The bounded LTL verdicts are proved for every bound
  (or as "iff" on the bound where they change), and gathered for the
  harness's bound 4.

The engines are not part of this model. A safety check's answer is read as
"the property holds in every reachable state". A bounded `G(p)` at bound `k`
means "p holds at every step of every run of `k` steps". A bounded `F(p)`
means "every run of `k` steps meets p at some step". This is the universal
reading the harness's `F(p2 > 0)` = false / `F(p2 > 0 || p5 > 0)` = true pair
demands. The protocol never deadlocks in a reachable state
(`Mutex.InvHasSuccessor`), so runs of every length exist.

## Model

| member | source | states |
|---|---|---|
| `Symbols.DeclarePlaces` | tests/test-mutex.cpp:11-18 | the loop yields five integer symbols, the i-th named "p" followed by the digit of i |
| `Symbols.DeclaredNames` | tests/test-mutex.cpp:12-18 | the declared names are exactly "p1", "p2", "p3", "p4", "p5" in that order |
| `Symbols.AllIntegerTyped` | tests/test-mutex.cpp:16-16 | every declared symbol has the integer kind |
| `Symbols.NamesDistinct` | tests/test-mutex.cpp:12-18 | no two declared symbols share a name |
| `Symbols.OffendingNamesUndeclared` | tests/test-mutex.cpp:87-92 | "p6", "p10", "p51" (and "p12" of line 170) are not declared names, the reason the harness expects an undeclared-variable error |
| `TransitionText.BuildExclusive` | tests/test-mutex.cpp:28-39 | the nested loops produce the rendering of the disjunction of clauses "(t[i] && !(t[j]) ...)", j != i ascending, joined by the disjunction operator, and "" for no actions |
| `TransitionText.BuildPseudoBoolean` | tests/test-mutex.cpp:211-215 | the loop produces the action texts joined by " + " and followed by " ==  1", and "" for no actions |
| `TransitionText.ClauseBodyMeaning` | tests/test-mutex.cpp:30-35 | after the inner loop has seen actions 0..j-1, the clause holds iff action i holds and no other seen action does |
| `TransitionText.ClauseBodyGrows` | tests/test-mutex.cpp:32-34 | a pass of the inner loop with j != i appends " && !(" + t[j] + ")" to the clause text, which is the rendering of the clause conjoined with the negation of action j |
| `TransitionText.ClauseMeaning` | tests/test-mutex.cpp:30-36 | clause i holds iff action i is the only action that holds |
| `TransitionText.ExclusiveUpToMeaning` | tests/test-mutex.cpp:29-39 | the disjunction of the first k clauses holds iff one of actions 0..k-1 is the only action that holds |
| `TransitionText.ExclusiveMeaning` | tests/test-mutex.cpp:28-39 | the exclusive disjunction holds iff exactly one action holds |
| `TransitionText.SumUpToValue` | tests/test-mutex.cpp:212-215 | the sum of the first k indicators equals the number of actions among the first k that hold |
| `TransitionText.PseudoBooleanMeaning` | tests/test-mutex.cpp:211-215 | the pseudo-boolean form holds iff the number of actions that hold is 1 |
| `TransitionText.CountZero` | tests/test-mutex.cpp:211-215 | the count of actions that hold is 0 iff none holds |
| `TransitionText.CountOne` | tests/test-mutex.cpp:211-215 | the count of actions that hold is 1 iff exactly one holds |
| `TransitionText.EncodingsAgree` | tests/test-mutex.cpp:28-39 | the exclusive disjunction and the pseudo-boolean sum of line 211-215 each hold iff exactly one action holds, for every valuation |
| `TransitionText.ExactlyOneIsDisjunction` | tests/test-mutex.cpp:28-39 | when no two actions hold together, "exactly one holds" is the plain disjunction of the actions |
| `PetriNet.StepKeepsNonNegative` | tests/test-mutex.cpp:343-350 | firing an enabled transition from a non-negative marking gives a non-negative marking of the same size |
| `Mutex.NetWellFormed` | tests/test-mutex.cpp:343-348 | the matrix has 5 rows (places) of 4 columns (actions) and the initial marking is the initial state (1,0,1,1,0) |
| `Mutex.ColumnMatchesAction` | tests/test-mutex.cpp:344-348 | column a-1 is enabled iff the guard of t[a] holds, and firing it gives exactly t[a]'s update of all five places |
| `Mutex.ActionsExclusive` | tests/test-mutex.cpp:23-26 | no two of t[1]..t[4] hold of the same (state, next-state) pair |
| `Mutex.DisjunctionOfValuation` | tests/test-mutex.cpp:23-39 | exactly one of t[1]..t[4] holds of a pair iff some action holds of it |
| `Mutex.StepMatchesNext` | tests/test-mutex.cpp:23-39 | the exclusive disjunction, the pseudo-boolean sum (211-215) and the incidence matrix (344-348) each relate exactly the pairs some action t[a] relates |
| `Mutex.MatrixStepMatchesNext` | tests/test-mutex.cpp:344-348 | one firing of an enabled matrix column relates exactly the pairs some action t[a] relates |
| `Mutex.ReachableInAgree` | tests/test-mutex.cpp:216-260 | all three encodings reach the same states in the same number of steps, so they owe the same verdicts |
| `Mutex.NextKeepsInv` | tests/test-mutex.cpp:23-26 | every action preserves the inductive strengthening |
| `Mutex.ReachableSatisfiesInv` | tests/test-mutex.cpp:20-26 | every state reachable from the initial state satisfies the inductive strengthening |
| `Mutex.InvHasSuccessor` | tests/test-mutex.cpp:23-26 | in every state satisfying the strengthening some action is enabled |
| `Mutex.ReachableMarkingNonNegative` | tests/test-mutex.cpp:343-350 | every marking the net reaches from its initial marking is non-negative |
| `Verdicts.InitSuccessors` | tests/test-mutex.cpp:20-26 | the initial state's successors are exactly (0,1,0,1,0) by t[1] and (1,0,0,0,1) by t[3] |
| `Verdicts.MutualExclusionHolds` | tests/test-mutex.cpp:45-50 | !(p2 > 0 && p5 > 0) holds in every reachable state |
| `Verdicts.TokenUnusedHolds` | tests/test-mutex.cpp:66-78 | (p3 > 0) -> (p2 == 0 && p5 == 0) holds in every reachable state |
| `Verdicts.CriticalRefutedInInit` | tests/test-mutex.cpp:52-64 | p2 > 0 && p5 > 0 and p2 > 0 or p5 > 0 fail in the initial state, a counterexample of length 0 |
| `Verdicts.BadTokenUsedRefuted` | tests/test-mutex.cpp:80-85 | (p3 == 0) -> (p2 == 1 && p5 == 1) fails in (0,1,0,1,0), reached by one firing of t[1] |
| `Verdicts.MutualExclusionNotInductive` | tests/test-mutex.cpp:45-50 | mutual exclusion alone is not inductive: (0,1,1,1,0) satisfies it and t[3] leads to (0,1,0,0,1), which does not |
| `Verdicts.RunStateReachable` | tests/test-mutex.cpp:102-104 | step i of a run from the initial state is reachable in i steps |
| `Verdicts.CycleIsRun` | tests/test-mutex.cpp:149-160 | entering and leaving by one process, repeated, is a run of every length under every encoding |
| `Verdicts.GloballyMutualExclusion` | tests/test-mutex.cpp:107-112 | G(!(p2 > 0 && p5 > 0)) holds at every bound |
| `Verdicts.GloballyCriticalRefuted` | tests/test-mutex.cpp:114-126 | G(p2 > 0 && p5 > 0) and G(p2 > 0 or p5 > 0) fail at every bound |
| `Verdicts.GloballyTokenUnused` | tests/test-mutex.cpp:128-140 | G((p3 > 0) -> (p2 == 0 && p5 == 0)) holds at every bound |
| `Verdicts.GloballyBadTokenUsed` | tests/test-mutex.cpp:142-147 | G((p3 == 0) -> (p2 == 1 && p5 == 1)) holds iff the bound is 0 |
| `Verdicts.EventuallyFirstCriticalRefuted` | tests/test-mutex.cpp:149-154 | F(p2 > 0) fails at every bound: the run alternating t[3], t[4] never has p2 > 0 |
| `Verdicts.EventuallySecondCriticalRefuted` | tests/test-mutex.cpp:155-160 | F(p5 > 0) fails at every bound: the run alternating t[1], t[2] never has p5 > 0 |
| `Verdicts.EventuallySomeCritical` | tests/test-mutex.cpp:162-167 | F(p2 > 0 or p5 > 0) holds iff the bound is at least 1 |
| `Verdicts.SafetyVerdicts` | tests/test-mutex.cpp:41-100 | the five safety verdicts of the harness, for each encoding (also lines 216-261 and 349-394) |
| `Verdicts.LtlVerdictsAtBoundFour` | tests/test-mutex.cpp:102-190 | the eight LTL verdicts of the harness at bound 4, for each encoding (also lines 263-330) |

## Left out

- The four engines (k-induction, LTL bounded model checking, IC3, Petri-net coverability) and the satisfiability solver: their source is not part of this model. Their answers are modelled by the verdict predicates above, not by the algorithms.
- The formula parser and type checker. The action texts `t[1] .. t[4]`, the initial-state text and the property texts are not parsed. The builders take the action texts as opaque strings, and `Mutex.Fires` gives what each text means. Only the undeclared names are recorded (`Symbols.OffendingNamesUndeclared`). The type errors `p1 == true`, `F(p1 == true)` and `F(p1)` (lines 94-99, 176-188) are not modelled, because the typing rules are not visible.
- The exception types `std::invalid_argument` and `std::bad_cast` the harness expects: they belong to the parser.
- The matrix and initial-marking entries are decimal strings in the harness (lines 343-348). They are modelled as the integers they spell.
- Action texts are indexed from 0 in `TransitionText`. The harness leaves `t[0]` empty and loops over `t[1] .. t[4]`; `Mutex.Valuation` maps action `a` to index `a - 1`.
- Catch2 scaffolding (`SCENARIO`, `GIVEN`, `WHEN`, `THEN`, `REQUIRE`) and the nesting of the `WHEN` sections under `F(p2 > 0)`.
- The bound-0 edge of the bounded checker is stated as the model gives it (a run of 0 steps is the initial state alone). The harness only uses bound 4, set at line 104.
