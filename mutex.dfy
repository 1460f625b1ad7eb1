/** The two-process token-passing mutual-exclusion protocol of
    tests/test-mutex.cpp, over five integer places:

    - p1 / p4: process 1 / process 2 is idle,
    - p2 / p5: process 1 / process 2 is in its critical section,
    - p3: the shared token is free.

    Action t[1] (t[3]) lets process 1 (2) take the token and enter; action
    t[2] (t[4]) lets it leave and give the token back. The harness hands the
    same protocol to the engines in three encodings; Step gives each its
    meaning and StepMatchesNext shows all three are the plain disjunction of
    the four actions. */
module Mutex {
  import TT = TransitionText
  import PetriNet
  import Symbols

  /** Values of the places p1 .. p5, in symbol-table order. */
  datatype State = State(p1: int, p2: int, p3: int, p4: int, p5: int)

  /** (p1 == 1 && p2 == 0 && p3 == 1 && p4 == 1 && p5 == 0) */
  const Init := State(1, 0, 1, 1, 0)

  /** The action numbers of the harness, t[1] .. t[4]. */
  type ActionId = a: int | 1 <= a <= 4 witness 1

  /** The guard of action a, over the current state. */
  predicate Guard(a: ActionId, s: State)
  {
    if a == 1 then s.p1 >= 1 && s.p3 >= 1
    else if a == 2 then s.p2 >= 1
    else if a == 3 then s.p4 >= 1 && s.p3 >= 1
    else s.p5 >= 1
  }

  /** The next-state values action a assigns to all five places. */
  function Apply(a: ActionId, s: State): State
  {
    if a == 1 then State(s.p1 - 1, s.p2 + 1, s.p3 - 1, s.p4, s.p5)
    else if a == 2 then State(s.p1 + 1, s.p2 - 1, s.p3 + 1, s.p4, s.p5)
    else if a == 3 then State(s.p1, s.p2, s.p3 - 1, s.p4 - 1, s.p5 + 1)
    else State(s.p1, s.p2, s.p3 + 1, s.p4 + 1, s.p5 - 1)
  }

  /** The action text t[a] holds of the pair (current, next). */
  predicate Fires(a: ActionId, s: State, s': State)
  {
    Guard(a, s) && s' == Apply(a, s)
  }

  /** The plain disjunction t[1] || t[2] || t[3] || t[4]: the reference
      one-step relation. */
  predicate Next(s: State, s': State)
  {
    exists a: ActionId :: Fires(a, s, s')
  }

  /** Which of the four action texts hold of (s, s'); entry a - 1 is t[a]. */
  function Valuation(s: State, s': State): (v: seq<bool>)
    ensures |v| == 4
    ensures forall a: ActionId :: v[a - 1] == Fires(a, s, s')
  {
    [Fires(1, s, s'), Fires(2, s, s'), Fires(3, s, s'), Fires(4, s, s')]
  }

  // ---------------------------------------------------------------------
  // The Petri-net encoding (tests/test-mutex.cpp:343-348)
  // ---------------------------------------------------------------------

  function Marking(s: State): (m: seq<int>)
    ensures |m| == Symbols.PlaceCount
  {
    [s.p1, s.p2, s.p3, s.p4, s.p5]
  }

  /** Initial marking and incidence matrix: row = place, column = action. */
  const Net := PetriNet.Net(
    [1, 0, 1, 1, 0],
    [[-1,  1,  0,  0],
     [ 1, -1,  0,  0],
     [-1,  1, -1,  1],
     [ 0,  0, -1,  1],
     [ 0,  0,  1, -1]])

  lemma NetWellFormed()
    ensures Net.WellFormed() && Net.Places() == 5 && Net.Transitions() == 4
    ensures Net.initial == Marking(Init)
  {
  }

  /** Column a - 1 of the matrix is action t[a]: it is enabled exactly when
      the guard holds, and firing it gives exactly the action's update. */
  lemma ColumnMatchesAction(a: ActionId, s: State)
    ensures Net.WellFormed()
    ensures Net.Enabled(a - 1, Marking(s)) <==> Guard(a, s)
    ensures Net.Fire(a - 1, Marking(s)) == Marking(Apply(a, s))
  {
    NetWellFormed();
    ColumnEnabled(a, s);
    ColumnFire(a, s);
  }

  lemma ColumnEnabled(a: ActionId, s: State)
    requires Net.WellFormed() && Net.Transitions() == 4
    ensures Net.Enabled(a - 1, Marking(s)) <==> Guard(a, s)
  {
    var m, j := Marking(s), a - 1;
    var inc := Net.incidence;
    assert Net.Enabled(j, m) <==>
      (inc[0][j] < 0 ==> m[0] >= -inc[0][j]) && (inc[1][j] < 0 ==> m[1] >= -inc[1][j]) &&
      (inc[2][j] < 0 ==> m[2] >= -inc[2][j]) && (inc[3][j] < 0 ==> m[3] >= -inc[3][j]) &&
      (inc[4][j] < 0 ==> m[4] >= -inc[4][j]);
  }

  lemma ColumnFire(a: ActionId, s: State)
    requires Net.WellFormed() && Net.Transitions() == 4
    ensures Net.Fire(a - 1, Marking(s)) == Marking(Apply(a, s))
  {
    var m, j := Marking(s), a - 1;
    var inc := Net.incidence;
    assert Net.Fire(j, m) == [m[0] + inc[0][j], m[1] + inc[1][j], m[2] + inc[2][j], m[3] + inc[3][j], m[4] + inc[4][j]];
  }

  // ---------------------------------------------------------------------
  // The three encodings
  // ---------------------------------------------------------------------

  /** The transition relations handed to the engines: the exclusive
      disjunction (tests/test-mutex.cpp:28-39), the pseudo-boolean sum
      (211-215) and the incidence matrix (344-348). */
  datatype Encoding = Exclusive | PseudoBoolean | IncidenceMatrix

  predicate Step(enc: Encoding, s: State, s': State)
  {
    var v := Valuation(s, s');
    match enc
    case Exclusive => TT.Eval(TT.ExclusiveForm(|v|), v)
    case PseudoBoolean => TT.Eval(TT.PseudoBooleanForm(|v|), v)
    case IncidenceMatrix =>
      NetWellFormed();
      Net.Step(Marking(s), Marking(s'))
  }

  /** No two actions hold of the same pair: each fixes the next state and
      the four updates differ. */
  lemma ActionsExclusive(a: ActionId, b: ActionId, s: State, s': State)
    requires Fires(a, s, s') && Fires(b, s, s')
    ensures a == b
  {
  }

  /** Every encoding relates exactly the pairs the plain disjunction does. */
  lemma StepMatchesNext(enc: Encoding, s: State, s': State)
    ensures Step(enc, s, s') <==> Next(s, s')
  {
    match enc
    case Exclusive =>
      TT.EncodingsAgree(Valuation(s, s'));
      DisjunctionOfValuation(s, s');
    case PseudoBoolean =>
      TT.EncodingsAgree(Valuation(s, s'));
      DisjunctionOfValuation(s, s');
    case IncidenceMatrix =>
      MatrixStepMatchesNext(s, s');
  }

  lemma MatrixStepMatchesNext(s: State, s': State)
    ensures Step(IncidenceMatrix, s, s') <==> Next(s, s')
  {
    NetWellFormed();
    if Next(s, s') {
      var a: ActionId :| Fires(a, s, s');
      ColumnMatchesAction(a, s);
    }
    if Net.Step(Marking(s), Marking(s')) {
      var j :| 0 <= j < 4 && Net.Enabled(j, Marking(s)) && Marking(s') == Net.Fire(j, Marking(s));
      ColumnMatchesAction(j + 1, s);
      assert Fires(j + 1, s, s');
    }
  }

  lemma DisjunctionOfValuation(s: State, s': State)
    ensures TT.ExactlyOne(Valuation(s, s')) <==> Next(s, s')
  {
    var v := Valuation(s, s');
    forall a, b | 0 <= a < b < |v|
      ensures !(v[a] && v[b])
    {
      if v[a] && v[b] {
        ActionsExclusive(a + 1, b + 1, s, s');
      }
    }
    TT.ExactlyOneIsDisjunction(v);
    if Next(s, s') {
      var a: ActionId :| Fires(a, s, s');
      assert v[a - 1];
    }
  }

  // ---------------------------------------------------------------------
  // Reachability
  // ---------------------------------------------------------------------

  /** s is reachable from Init in exactly n steps of the encoding. */
  ghost predicate ReachableIn(enc: Encoding, n: nat, s: State)
    decreases n
  {
    if n == 0 then s == Init
    else exists r :: ReachableIn(enc, n - 1, r) && Step(enc, r, s)
  }

  /** The encodings reach the same states in the same number of steps. */
  lemma ReachableInAgree(enc: Encoding, enc': Encoding, n: nat, s: State)
    ensures ReachableIn(enc, n, s) <==> ReachableIn(enc', n, s)
  {
    if ReachableIn(enc, n, s) {
      ReachableInTransfer(enc, enc', n, s);
    }
    if ReachableIn(enc', n, s) {
      ReachableInTransfer(enc', enc, n, s);
    }
  }

  lemma {:induction false} ReachableInTransfer(enc: Encoding, enc': Encoding, n: nat, s: State)
    requires ReachableIn(enc, n, s)
    ensures ReachableIn(enc', n, s)
  {
    if n > 0 {
      var r :| ReachableIn(enc, n - 1, r) && Step(enc, r, s);
      ReachableInTransfer(enc, enc', n - 1, r);
      StepMatchesNext(enc, r, s);
      StepMatchesNext(enc', r, s);
    }
  }

  /** The inductive strengthening: each process is idle or critical, and
      exactly one of "token free", "process 1 critical", "process 2
      critical" holds. */
  predicate Inv(s: State)
  {
    s.p1 >= 0 && s.p2 >= 0 && s.p3 >= 0 && s.p4 >= 0 && s.p5 >= 0 &&
    s.p1 + s.p2 == 1 && s.p4 + s.p5 == 1 && s.p2 + s.p3 + s.p5 == 1
  }

  lemma NextKeepsInv(s: State, s': State)
    requires Inv(s) && Next(s, s')
    ensures Inv(s')
  {
  }

  lemma {:induction false} ReachableSatisfiesInv(enc: Encoding, n: nat, s: State)
    requires ReachableIn(enc, n, s)
    ensures Inv(s)
  {
    if n > 0 {
      var r :| ReachableIn(enc, n - 1, r) && Step(enc, r, s);
      ReachableSatisfiesInv(enc, n - 1, r);
      StepMatchesNext(enc, r, s);
      NextKeepsInv(r, s);
    }
  }

  /** The invariant leaves no state stuck: some action is always enabled. */
  lemma InvHasSuccessor(s: State)
    requires Inv(s)
    ensures Guard(1, s) || Guard(2, s) || Guard(3, s) || Guard(4, s)
  {
    if s.p3 == 1 {
      assert Guard(1, s);
    } else if s.p2 == 1 {
      assert Guard(2, s);
    } else {
      assert Guard(4, s);
    }
  }

  /** Reachable markings of the net are non-negative, as coverability
      requires, by the firing rule alone. */
  lemma {:induction false} ReachableMarkingNonNegative(n: nat, s: State)
    requires ReachableIn(IncidenceMatrix, n, s)
    ensures PetriNet.NonNegative(Marking(s))
  {
    NetWellFormed();
    if n > 0 {
      var r :| ReachableIn(IncidenceMatrix, n - 1, r) && Step(IncidenceMatrix, r, s);
      ReachableMarkingNonNegative(n - 1, r);
      PetriNet.StepKeepsNonNegative(Net, Marking(r), Marking(s));
    }
  }
}
