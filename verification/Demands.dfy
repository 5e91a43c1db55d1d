/** What the operations of a run need altogether. */
module Demands {
  function Demand<Op>(ops: seq<Op>, need: Op -> nat): nat {
    if ops == [] then 0 else Demand(ops[..|ops| - 1], need) + need(ops[|ops| - 1])
  }

  lemma DemandStep<Op>(ops: seq<Op>, need: Op -> nat, k: int)
    requires 0 <= k < |ops|
    ensures Demand(ops[..k + 1], need) == Demand(ops[..k], need) + need(ops[k])
  {
    assert ops[..k + 1][..k] == ops[..k];
  }
}
