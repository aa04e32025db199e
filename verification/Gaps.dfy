/** Neighbouring marks in a history, the present standing behind the last. */
module Gaps {

  /** `j` and `k` are neighbouring marks; `k == |on|` is the present. */
  ghost predicate Neighbours(on: seq<bool>, j: int, k: int) {
    && 0 <= j < k <= |on| && on[j] && (k < |on| ==> on[k])
    && forall x | j < x < k :: !on[x]
  }

  lemma NeighboursBound(on: seq<bool>, j: int, k: int)
    requires Neighbours(on, j, k)
    ensures 0 <= j < k <= |on| && on[j] && (k < |on| ==> on[k])
  {
  }

  /** What one more entry does to the neighbours. */
  lemma NeighboursExtend(on: seq<bool>, b: bool, j: int, k: int)
    ensures Neighbours(on + [b], j, k) <==>
              if k < |on| then Neighbours(on, j, k)
              else if k == |on| then b && Neighbours(on, j, |on|)
              else k == |on| + 1 && if b then j == |on| else Neighbours(on, j, |on|)
  {
    var g := on + [b];
    assert forall x | 0 <= x < |on| :: g[x] == on[x];
    assert g[|on|] == b;
    if k > |on| && Neighbours(g, j, k) && j != |on| { assert !g[|on|]; }
    if 0 <= j < k <= |on| {
      assert (forall x | j < x < k :: !g[x]) <==> (forall x | j < x < k :: !on[x]);
    }
  }
}
