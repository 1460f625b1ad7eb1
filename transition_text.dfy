/** The two textual transition relations the harness assembles from the four
    action texts t[1] .. t[4]:

    - the exclusive disjunction (tests/test-mutex.cpp:28-39): clause i is
      "(" + t[i] followed by " && !(" + t[j] + ")" for every j != i in
      ascending order, then ")"; the clauses are joined by " || ";
    - the pseudo-boolean sum (tests/test-mutex.cpp:211-215): the texts joined
      by " + " and followed by " ==  1", each action text read as 0 or 1.

    Both strings are the rendering of a small formula tree over action
    indicators. Render gives the text and Eval the meaning, where the
    valuation v says which action relations hold (v[i] for action text i).
    Action texts are indexed from 0 here; the harness leaves t[0] empty and
    uses t[1] .. t[4]. */
module TransitionText {

  datatype Form =
    | Act(i: nat)            // the text of action i
    | Not(f: Form)           // "!(" f ")"
    | Paren(f: Form)         // "(" f ")"
    | And(a: Form, b: Form)  // a " && " b
    | Or(a: Form, b: Form)   // a " || " b
    | SumIsOne(s: Sum)       // s " ==  1"

  /** A sum of formulas, each read as 1 when true and 0 when false. */
  datatype Sum = Ind(f: Form) | Plus(s: Sum, f: Form)  // s " + " f

  function Render(f: Form, t: seq<string>): string
  {
    match f
    case Act(i) => if i < |t| then t[i] else ""
    case Not(g) => "!(" + Render(g, t) + ")"
    case Paren(g) => "(" + Render(g, t) + ")"
    case And(a, b) => Render(a, t) + " && " + Render(b, t)
    case Or(a, b) => Render(a, t) + " || " + Render(b, t)
    case SumIsOne(s) => RenderSum(s, t) + " ==  1"
  }

  function RenderSum(s: Sum, t: seq<string>): string
  {
    match s
    case Ind(f) => Render(f, t)
    case Plus(rest, f) => RenderSum(rest, t) + " + " + Render(f, t)
  }

  predicate Eval(f: Form, v: seq<bool>)
  {
    match f
    case Act(i) => i < |v| && v[i]
    case Not(g) => !Eval(g, v)
    case Paren(g) => Eval(g, v)
    case And(a, b) => Eval(a, v) && Eval(b, v)
    case Or(a, b) => Eval(a, v) || Eval(b, v)
    case SumIsOne(s) => SumValue(s, v) == 1
  }

  function SumValue(s: Sum, v: seq<bool>): nat
  {
    match s
    case Ind(f) => if Eval(f, v) then 1 else 0
    case Plus(rest, f) => SumValue(rest, v) + (if Eval(f, v) then 1 else 0)
  }

  // ---------------------------------------------------------------------
  // The formulas the harness builds, with n action texts
  // ---------------------------------------------------------------------

  /** Clause i after the inner loop has looked at actions 0 .. j-1:
      action i conjoined with the negation of every other action seen. */
  function ClauseBody(i: nat, j: nat): Form
  {
    if j == 0 then Act(i)
    else if j - 1 == i then ClauseBody(i, j - 1)
    else And(ClauseBody(i, j - 1), Not(Act(j - 1)))
  }

  function Clause(i: nat, n: nat): Form
  {
    Paren(ClauseBody(i, n))
  }

  /** The disjunction of the first k clauses. */
  function ExclusiveUpTo(k: nat, n: nat): Form
    requires 1 <= k
  {
    if k == 1 then Clause(0, n) else Or(ExclusiveUpTo(k - 1, n), Clause(k - 1, n))
  }

  function ExclusiveForm(n: nat): Form
    requires 1 <= n
  {
    ExclusiveUpTo(n, n)
  }

  /** The sum of the first k action indicators. */
  function SumUpTo(k: nat): Sum
    requires 1 <= k
  {
    if k == 1 then Ind(Act(0)) else Plus(SumUpTo(k - 1), Act(k - 1))
  }

  function PseudoBooleanForm(n: nat): Form
    requires 1 <= n
  {
    SumIsOne(SumUpTo(n))
  }

  // ---------------------------------------------------------------------
  // The builders, as loops over strings
  // ---------------------------------------------------------------------

  /** The nested loops of tests/test-mutex.cpp:28-39. */
  method BuildExclusive(t: seq<string>) returns (T: string)
    ensures T == if |t| == 0 then "" else Render(ExclusiveForm(|t|), t)
  {
    T := "";
    var i := 0;
    while i < |t|
      invariant 0 <= i <= |t|
      invariant T == if i == 0 then "" else Render(ExclusiveUpTo(i, |t|), t)
    {
      var clause := "(" + t[i];
      var j := 0;
      while j < |t|
        invariant 0 <= j <= |t|
        invariant clause == "(" + Render(ClauseBody(i, j), t)
      {
        if j != i {
          ClauseBodyGrows(i, j, t);
          clause := clause + " && !(" + t[j] + ")";
        } else {
          assert ClauseBody(i, j + 1) == ClauseBody(i, j);
        }
        j := j + 1;
      }
      clause := clause + ")";
      assert clause == Render(Clause(i, |t|), t);
      if i == 0 {
        T := clause;
      } else {
        T := T + " || " + clause;
      }
      i := i + 1;
    }
  }

  /** One pass of the inner loop for j != i appends the negation of t[j]. */
  lemma ClauseBodyGrows(i: nat, j: nat, t: seq<string>)
    requires j < |t| && j != i
    ensures "(" + Render(ClauseBody(i, j + 1), t) == "(" + Render(ClauseBody(i, j), t) + " && !(" + t[j] + ")"
  {
    assert ClauseBody(i, j + 1) == And(ClauseBody(i, j), Not(Act(j)));
    assert Render(Not(Act(j)), t) == "!(" + t[j] + ")";
    assert " && !(" == " && " + "!(";
  }

  /** The loop of tests/test-mutex.cpp:211-215. */
  method BuildPseudoBoolean(t: seq<string>) returns (T: string)
    ensures T == if |t| == 0 then "" else Render(PseudoBooleanForm(|t|), t)
  {
    T := "";
    var i := 0;
    while i < |t|
      invariant 0 <= i <= |t|
      invariant i == 0 ==> T == ""
      invariant 0 < i < |t| ==> T == RenderSum(SumUpTo(i), t) + " + "
      invariant 0 < i == |t| ==> T == Render(PseudoBooleanForm(|t|), t)
    {
      if i != |t| - 1 {
        T := T + t[i] + " + ";
      } else {
        T := T + t[i] + " ==  1";
      }
      i := i + 1;
    }
  }

  // ---------------------------------------------------------------------
  // What the formulas mean
  // ---------------------------------------------------------------------

  /** Action i holds and no other action does. */
  predicate OnlyAt(v: seq<bool>, i: nat)
    requires i < |v|
  {
    v[i] && forall j | 0 <= j < |v| && j != i :: !v[j]
  }

  predicate ExactlyOne(v: seq<bool>)
  {
    exists i | 0 <= i < |v| :: OnlyAt(v, i)
  }

  /** Number of actions that hold, each read as 0 or 1. */
  function CountTrue(v: seq<bool>): nat
  {
    if |v| == 0 then 0 else CountTrue(v[..|v| - 1]) + (if v[|v| - 1] then 1 else 0)
  }

  lemma {:induction false} ClauseBodyMeaning(i: nat, j: nat, v: seq<bool>)
    requires i < |v| && j <= |v|
    ensures Eval(ClauseBody(i, j), v) <==> v[i] && forall k | 0 <= k < j && k != i :: !v[k]
  {
    if j > 0 {
      ClauseBodyMeaning(i, j - 1, v);
      if j - 1 == i {
        assert ClauseBody(i, j) == ClauseBody(i, j - 1);
        assert Eval(ClauseBody(i, j), v) == Eval(ClauseBody(i, j - 1), v);
        assert (forall k | 0 <= k < j && k != i :: !v[k])
          <==> (forall k | 0 <= k < j - 1 && k != i :: !v[k]);
      } else {
        assert ClauseBody(i, j) == And(ClauseBody(i, j - 1), Not(Act(j - 1)));
        assert Eval(Act(j - 1), v) == v[j - 1];
        assert Eval(ClauseBody(i, j), v) == (Eval(ClauseBody(i, j - 1), v) && !v[j - 1]);
        assert (forall k | 0 <= k < j && k != i :: !v[k])
          <==> (forall k | 0 <= k < j - 1 && k != i :: !v[k]) && !v[j - 1];
      }
    }
  }

  /** Clause i holds exactly when action i is the only action that holds. */
  lemma ClauseMeaning(i: nat, v: seq<bool>)
    requires i < |v|
    ensures Eval(Clause(i, |v|), v) <==> OnlyAt(v, i)
  {
    ClauseBodyMeaning(i, |v|, v);
  }

  lemma {:induction false} ExclusiveUpToMeaning(k: nat, v: seq<bool>)
    requires 1 <= k <= |v|
    ensures Eval(ExclusiveUpTo(k, |v|), v) <==> exists i | 0 <= i < k :: OnlyAt(v, i)
  {
    ClauseMeaning(k - 1, v);
    if k > 1 {
      ExclusiveUpToMeaning(k - 1, v);
    }
  }

  /** The exclusive disjunction holds exactly when one action holds. */
  lemma ExclusiveMeaning(v: seq<bool>)
    requires 1 <= |v|
    ensures Eval(ExclusiveForm(|v|), v) <==> ExactlyOne(v)
  {
    ExclusiveUpToMeaning(|v|, v);
  }

  lemma {:induction false} SumUpToValue(k: nat, v: seq<bool>)
    requires 1 <= k <= |v|
    ensures SumValue(SumUpTo(k), v) == CountTrue(v[..k])
  {
    assert v[..k][..k - 1] == v[..k - 1];
    if k > 1 {
      SumUpToValue(k - 1, v);
    } else {
      assert v[..0] == [];
    }
  }

  /** The pseudo-boolean form holds exactly when the number of actions that
      hold is one. */
  lemma PseudoBooleanMeaning(v: seq<bool>)
    requires 1 <= |v|
    ensures Eval(PseudoBooleanForm(|v|), v) <==> CountTrue(v) == 1
  {
    SumUpToValue(|v|, v);
    assert v[..|v|] == v;
  }

  lemma {:induction false} CountZero(v: seq<bool>)
    ensures CountTrue(v) == 0 <==> forall j | 0 <= j < |v| :: !v[j]
  {
    if |v| > 0 {
      var w := v[..|v| - 1];
      CountZero(w);
      assert forall j | 0 <= j < |w| :: w[j] == v[j];
    }
  }

  lemma {:induction false} CountOne(v: seq<bool>)
    ensures CountTrue(v) == 1 <==> ExactlyOne(v)
  {
    if |v| > 0 {
      var n := |v| - 1;
      var w := v[..n];
      assert forall j | 0 <= j < |w| :: w[j] == v[j];
      CountOne(w);
      CountZero(w);
      if v[n] {
        if CountTrue(v) == 1 {
          assert OnlyAt(v, n);
        }
        if ExactlyOne(v) {
          var i :| 0 <= i < |v| && OnlyAt(v, i);
          assert i == n;
        }
      } else {
        if ExactlyOne(w) {
          var i :| 0 <= i < |w| && OnlyAt(w, i);
          assert OnlyAt(v, i);
        }
        if ExactlyOne(v) {
          var i :| 0 <= i < |v| && OnlyAt(v, i);
          assert OnlyAt(w, i);
        }
      }
    }
  }

  /** The two encodings of "exactly one action fires" agree on every
      valuation of the action texts. */
  lemma EncodingsAgree(v: seq<bool>)
    requires 1 <= |v|
    ensures Eval(ExclusiveForm(|v|), v) <==> ExactlyOne(v)
    ensures Eval(PseudoBooleanForm(|v|), v) <==> ExactlyOne(v)
  {
    ExclusiveMeaning(v);
    PseudoBooleanMeaning(v);
    CountOne(v);
  }

  /** When no two actions can hold together, "exactly one" is the plain
      disjunction of the action texts. */
  lemma ExactlyOneIsDisjunction(v: seq<bool>)
    requires forall a, b | 0 <= a < b < |v| :: !(v[a] && v[b])
    ensures ExactlyOne(v) <==> exists i | 0 <= i < |v| :: v[i]
  {
    if i :| 0 <= i < |v| && v[i] {
      assert OnlyAt(v, i);
    }
  }
}
