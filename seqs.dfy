// Order-preserving selection out of a sequence, shared by the lister, the
// selection workflow and the deletion report: each of them keeps, in their
// original order, exactly the items at which some per-item flag holds.

module Seqs {

  /** Number of true flags. */
  function Count(bs: seq<bool>): (n: nat)
    ensures n <= |bs|
    ensures n == 0 <==> (forall i :: 0 <= i < |bs| ==> !bs[i])
    ensures n == |bs| <==> (forall i :: 0 <= i < |bs| ==> bs[i])
  {
    if bs == [] then 0
    else
      var init := bs[..|bs| - 1];
      assert forall i :: 0 <= i < |init| ==> init[i] == bs[i];
      Count(init) + (if bs[|bs| - 1] then 1 else 0)
  }

  /** The strictly increasing list of positions of `bs` that are true. */
  function IndicesWhere(bs: seq<bool>): seq<nat>
  {
    if bs == [] then []
    else IndicesWhere(bs[..|bs| - 1]) + (if bs[|bs| - 1] then [|bs| - 1] else [])
  }

  ghost predicate StrictlyIncreasing(idx: seq<nat>)
  {
    forall j, k :: 0 <= j < k < |idx| ==> idx[j] < idx[k]
  }

  /**
    * IndicesWhere(bs) lists every true position of bs, and only those, in
    * increasing order; it has Count(bs) elements.
    */
  lemma {:induction false} IndicesWhereSpec(bs: seq<bool>)
    ensures var idx := IndicesWhere(bs);
      |idx| == Count(bs) &&
      StrictlyIncreasing(idx) &&
      (forall j :: 0 <= j < |idx| ==> idx[j] < |bs| && bs[idx[j]]) &&
      (forall k :: 0 <= k < |bs| && bs[k] ==> k in idx)
  {
    if bs != [] {
      var init := bs[..|bs| - 1];
      IndicesWhereSpec(init);
      assert forall i :: 0 <= i < |init| ==> init[i] == bs[i];
      var idx := IndicesWhere(bs);
      assert idx == IndicesWhere(init) + (if bs[|bs| - 1] then [|bs| - 1] else []);
      forall k | 0 <= k < |bs| && bs[k]
        ensures k in idx
      {
        if k < |bs| - 1 {
          assert k in IndicesWhere(init);
        } else {
          assert idx[|idx| - 1] == k;
        }
      }
    }
  }
}
