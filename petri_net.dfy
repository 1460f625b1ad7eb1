/** A Petri net in incidence-matrix form, as handed to the coverability
    engine (tests/test-mutex.cpp:343-350): an initial marking with one entry
    per place, and a matrix with one row per place and one column per
    transition, whose entry is what the transition adds to (positive) or
    takes from (negative) that place. */
module PetriNet {

  datatype Net = Net(initial: seq<int>, incidence: seq<seq<int>>)
  {
    predicate WellFormed()
    {
      |incidence| == |initial| &&
      forall k | 0 <= k < |incidence| :: |incidence[k]| == Transitions()
    }

    function Places(): nat
    {
      |initial|
    }

    function Transitions(): nat
    {
      if |incidence| == 0 then 0 else |incidence[0]|
    }

    /** Column j may fire in marking m when every place that column takes
        from holds at least the amount taken. */
    predicate Enabled(j: nat, m: seq<int>)
      requires WellFormed() && j < Transitions() && |m| == Places()
    {
      forall k | 0 <= k < |m| :: incidence[k][j] < 0 ==> m[k] >= -incidence[k][j]
    }

    /** The marking after firing column j: the column added place by place. */
    function Fire(j: nat, m: seq<int>): (m': seq<int>)
      requires WellFormed() && j < Transitions() && |m| == Places()
      ensures |m'| == |m|
      ensures forall k | 0 <= k < |m| :: m'[k] - m[k] == incidence[k][j]
    {
      seq(|m|, k requires 0 <= k < |m| => m[k] + incidence[k][j])
    }

    /** One firing of some enabled transition. */
    predicate Step(m: seq<int>, m': seq<int>)
      requires WellFormed() && |m| == Places()
    {
      exists j | 0 <= j < Transitions() :: Enabled(j, m) && m' == Fire(j, m)
    }
  }

  predicate NonNegative(m: seq<int>)
  {
    forall k | 0 <= k < |m| :: m[k] >= 0
  }

  /** Firing an enabled transition never makes a place negative, so every
      marking reachable from a non-negative one is non-negative. */
  lemma StepKeepsNonNegative(net: Net, m: seq<int>, m': seq<int>)
    requires net.WellFormed() && |m| == net.Places()
    requires NonNegative(m) && net.Step(m, m')
    ensures NonNegative(m') && |m'| == |m|
  {
    var j :| 0 <= j < net.Transitions() && net.Enabled(j, m) && m' == net.Fire(j, m);
    forall k | 0 <= k < |m'|
      ensures m'[k] >= 0
    {
      assert net.incidence[k][j] < 0 ==> m[k] >= -net.incidence[k][j];
    }
  }
}
