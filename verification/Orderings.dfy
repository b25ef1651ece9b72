/** The fill-reducing ordering: invp gives the new label of a vertex, perm the vertex of a label. */
module Orderings {
  import opened Permutations

  class Ordering {
    var invp: array<nat>
    var perm: array<nat>

    ghost predicate Valid()
      reads this, invp, perm
    {
      invp != perm && Inverses(invp[..], perm[..])
    }

    /** perm rebuilt from invp; every entry is overwritten, so nothing is asked of the old perm. */
    method RebuildPerm()
      requires invp != perm && invp.Length == perm.Length && IsPermutation(invp[..])
      modifies perm
      ensures Valid()
    {
      var n := invp.Length - 1;
      var i := 1;
      while i <= n
        invariant 1 <= i <= n + 1
        invariant forall j :: 0 < j < i ==> perm[invp[j]] == j
      {
        var node := invp[i];
        perm[node] := i;
        i := i + 1;
      }
      forall w | 0 < w <= n
        ensures 0 < perm[w] <= n && invp[perm[w]] == w
      {
        PermutationIsOnto(invp[..], w);
      }
    }

    /** Follows the ordering by the relabelling invp2, in place, and rebuilds perm. */
    method Compose(invp2: array<nat>)
      requires invp != perm && invp2 != invp && invp2 != perm
      requires invp.Length == perm.Length == invp2.Length
      requires IsPermutation(invp[..]) && IsPermutation(invp2[..])
      modifies invp, perm
      ensures invp.Length == perm.Length == invp2.Length && IsPermutation(old(invp[..]))
      ensures invp[..] == Composed(old(invp[..]), invp2[..])
      ensures Valid()
    {
      var n := invp.Length - 1;
      ghost var before, second := invp[..], invp2[..];
      var i := 1;
      while i <= n
        invariant 1 <= i <= n + 1
        invariant forall j :: 0 < j < i ==> invp[j] == second[before[j]]
        invariant forall j :: i <= j <= n ==> invp[j] == before[j]
        invariant invp[0] == before[0] && invp2[..] == second
      {
        var interm := invp[i];
        invp[i] := invp2[interm];
        i := i + 1;
      }
      assert invp[..] == Composed(before, second);
      RebuildPerm();
    }

    /** The relabelling that leads from an earlier labelling to this one. */
    method GetRelativeInvp(frominvp: array<nat>) returns (relinvp: array<nat>)
      requires Valid() && frominvp.Length == invp.Length && IsPermutation(frominvp[..])
      ensures fresh(relinvp) && relinvp.Length == invp.Length
      ensures IsPermutation(relinvp[..])
      ensures forall v :: 0 < v < invp.Length ==> relinvp[frominvp[v]] == invp[v]
    {
      relinvp := new nat[invp.Length];
      var n := invp.Length - 1;
      var node := 1;
      while node <= n
        invariant 1 <= node <= n + 1
        invariant forall k :: 0 < k < node ==> relinvp[frominvp[perm[k]]] == k
      {
        var i := perm[node];
        var interm := frominvp[i];
        relinvp[interm] := node;
        node := node + 1;
      }
      RelativeIsPermutation(invp[..], perm[..], frominvp[..], relinvp[..]);
    }
  }

  lemma RelativeIsPermutation(invp: seq<nat>, perm: seq<nat>, frominvp: seq<nat>, relinvp: seq<nat>)
    requires Inverses(invp, perm) && |frominvp| == |relinvp| == |invp| && IsPermutation(frominvp)
    requires forall k :: 0 < k < |invp| ==> relinvp[frominvp[perm[k]]] == k
    ensures IsPermutation(relinvp) && forall v :: 0 < v < |invp| ==> relinvp[frominvp[v]] == invp[v]
  {
    forall v | 0 < v < |invp|
      ensures relinvp[frominvp[v]] == invp[v]
    {
      assert perm[invp[v]] == v;
    }
    forall w | 0 < w < |invp|
      ensures exists v :: 0 < v < |invp| && frominvp[v] == w && relinvp[w] == invp[v]
    {
      PermutationIsOnto(frominvp, w);
    }
    InversesArePermutations(invp, perm);
    hide Inverses;
  }
}
