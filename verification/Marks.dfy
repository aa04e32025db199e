/**
 * What the two tag scanners have in common.  A text is seen as rows with one entry per code unit:
 * where a tag may open, where a terminator starts, and the tags found at each position.
 */
module Marks {

  /** The first terminator at or after `p`, or the end of the text. */
  function NextTerm(term: seq<bool>, p: nat): (e: nat)
    requires p <= |term|
    ensures p <= e <= |term|
    ensures e < |term| ==> term[e]
    ensures forall j | p <= j < e :: !term[j]
    decreases |term| - p
  {
    if p == |term| || term[p] then p else NextTerm(term, p + 1)
  }

  lemma NextTermUnique(term: seq<bool>, p: nat, e: nat)
    requires p <= e <= |term|
    requires e < |term| ==> term[e]
    requires forall j | p <= j < e :: !term[j]
    ensures NextTerm(term, p) == e
  {
  }

  /** A tag opens on a prefix that starts the text or directly follows a terminator mark. */
  function Openings(pre: seq<bool>, term: seq<bool>): (open: seq<bool>)
    requires |pre| == |term|
    ensures |open| == |pre|
  {
    seq(|pre|, p requires 0 <= p < |pre| => pre[p] && (p == 0 || term[p - 1]))
  }

  // ------------------------------------------------------- what the entries below `p` hold

  function Flat<T>(cells: seq<seq<T>>, p: nat): seq<T>
    requires p <= |cells|
  {
    if p == 0 then [] else Flat(cells, p - 1) + cells[p - 1]
  }

  lemma {:induction false} FlatSkip<T>(cells: seq<seq<T>>, p: nat, q: nat)
    requires p <= q <= |cells|
    requires forall j | p <= j < q :: cells[j] == []
    ensures Flat(cells, q) == Flat(cells, p)
  {
    if p == q {
    } else {
      FlatSkip(cells, p, q - 1);
    }
  }

  lemma {:induction false} FlatContains<T>(cells: seq<seq<T>>, p: nat, x: T)
    requires p <= |cells|
    ensures x in Flat(cells, p) <==> exists j | 0 <= j < p :: x in cells[j]
  {
    if p == 0 {
    } else {
      FlatContains(cells, p - 1, x);
    }
  }

  // ------------------------------------------------------- the list of terminators of the scanners

  function TermList(term: seq<bool>, k: nat): (ts: seq<int>)
    requires k <= |term|
    ensures |ts| >= 1
  {
    if k == 0 then [-1] else TermList(term, k - 1) + if term[k - 1] then [k - 1] else []
  }

  lemma {:induction false} TermListSkip(term: seq<bool>, p: nat, q: nat)
    requires p <= q <= |term|
    requires forall j | p <= j < q :: !term[j]
    ensures TermList(term, q) == TermList(term, p)
  {
    if p == q {
    } else {
      TermListSkip(term, p, q - 1);
    }
  }

  /** `t` and `e` are neighbours in the list: nothing between them is a terminator. */
  ghost predicate Gap(term: seq<bool>, t: int, e: int) {
    && -1 <= t < e <= |term|
    && (t >= 0 ==> term[t])
    && forall j | t < j < e :: !term[j]
  }

  /** The list with its end marker starts at -1, and leaves no terminator out. */
  lemma {:induction false} TermListLists(term: seq<bool>, k: nat)
    requires k <= |term|
    ensures var ts := TermList(term, k) + [k];
            ts[0] == -1 && forall i | 0 <= i < |ts| - 1 :: Gap(term, ts[i], ts[i + 1])
  {
    if k == 0 {
    } else {
      TermListLists(term, k - 1);
      var ts := TermList(term, k - 1) + [k - 1];
      assert Gap(term, ts[|ts| - 2], ts[|ts| - 1]);
      var us := TermList(term, k) + [k];
      forall i | 0 <= i < |us| - 1
        ensures Gap(term, us[i], us[i + 1])
      {
        if i + 1 < |ts| { assert Gap(term, ts[i], ts[i + 1]) || i + 1 == |ts| - 1; }
      }
    }
  }

  // ------------------------------------------------------- the same text at two resolutions

  ghost predicate EntryRefines(open: bool, term: bool, fineOpen: seq<bool>, fineTerm: seq<bool>, p: nat, q: nat)
  {
    && p < q <= |fineOpen| == |fineTerm|
    && fineOpen[p] == open && fineTerm[p] == term
    && forall j | p < j < q :: !fineOpen[j] && (fineTerm[j] ==> term)
  }

  /**
   * `off` places each coarse entry in the fine rows: a tag or terminator there shows at the first of
   * its fine entries, and the others open nothing.
   */
  ghost predicate Refines(open: seq<bool>, term: seq<bool>, fineOpen: seq<bool>, fineTerm: seq<bool>, off: seq<nat>)
  {
    && |open| == |term| && |fineOpen| == |fineTerm| && |off| == |open| + 1
    && off[0] == 0 && off[|open|] == |fineOpen|
    && forall k | 0 <= k < |open| :: EntryRefines(open[k], term[k], fineOpen, fineTerm, off[k], off[k + 1])
  }

  lemma {:induction false} OffsetsGrow(open: seq<bool>, term: seq<bool>, fineOpen: seq<bool>, fineTerm: seq<bool>,
                                       off: seq<nat>, i: nat, k: nat)
    requires Refines(open, term, fineOpen, fineTerm, off)
    requires i <= k < |off|
    ensures off[i] <= off[k] <= |fineOpen|
    ensures i < k ==> off[i] < off[k]
    decreases |open| - i
  {
    if i == |open| {
    } else {
      assert EntryRefines(open[i], term[i], fineOpen, fineTerm, off[i], off[i + 1]);
      if i < k { OffsetsGrow(open, term, fineOpen, fineTerm, off, i + 1, k); }
    }
  }

  lemma {:induction false} NextTermRefines(open: seq<bool>, term: seq<bool>, fineOpen: seq<bool>, fineTerm: seq<bool>,
                                           off: seq<nat>, k: nat)
    requires Refines(open, term, fineOpen, fineTerm, off)
    requires k < |off|
    ensures off[k] <= |fineTerm|
    ensures NextTerm(fineTerm, off[k]) == off[NextTerm(term, k)]
    decreases |open| - k
  {
    OffsetsGrow(open, term, fineOpen, fineTerm, off, k, k);
    if k == |open| {
    } else {
      assert EntryRefines(open[k], term[k], fineOpen, fineTerm, off[k], off[k + 1]);
      if !term[k] {
        NextTermRefines(open, term, fineOpen, fineTerm, off, k + 1);
        NextTermUnique(fineTerm, off[k], NextTerm(fineTerm, off[k + 1]));
      }
    }
  }

  ghost predicate CellRefines<T>(cell: seq<T>, fine: seq<seq<T>>, p: nat, q: nat) {
    && p < q <= |fine|
    && fine[p] == cell
    && forall j | p < j < q :: fine[j] == []
  }

  /** `fine` holds at `off[k]` what `cells` holds at `k`, and nothing elsewhere. */
  ghost predicate CellsRefine<T>(cells: seq<seq<T>>, fine: seq<seq<T>>, off: seq<nat>) {
    && |off| == |cells| + 1 && off[0] == 0
    && forall k | 0 <= k < |cells| :: CellRefines(cells[k], fine, off[k], off[k + 1])
  }

  lemma {:induction false} FlatRefines<T>(cells: seq<seq<T>>, fine: seq<seq<T>>, off: seq<nat>, k: nat)
    requires CellsRefine(cells, fine, off) && k <= |cells|
    ensures off[k] <= |fine| && Flat(fine, off[k]) == Flat(cells, k)
  {
    if k == 0 {
    } else {
      FlatRefines(cells, fine, off, k - 1);
      assert CellRefines(cells[k - 1], fine, off[k - 1], off[k]);
      FlatSkip(fine, off[k - 1] + 1, off[k]);
    }
  }
}
