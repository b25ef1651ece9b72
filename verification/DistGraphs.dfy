/** A graph whose columns are split over ranks in contiguous blocks. */
module DistGraphs {
  import opened SparseGraphs

  /** The storage of every rank; rank p owns the columns vertexDist[p] .. vertexDist[p+1] - 1. */
  datatype Dist = Dist(base: nat, vertexDist: seq<nat>, ranks: seq<Csc>) {

    ghost predicate Valid() {
      && |ranks| >= 1 && IsSplit(vertexDist, base, |ranks|)
      && forall p :: 0 <= p < |ranks| ==> RankValid(p)
    }

    ghost predicate RankValid(p: nat)
      requires p < |ranks| && IsSplit(vertexDist, base, |ranks|)
    {
      && ranks[p].Valid() && ranks[p].base == base
      && |ranks[p].colptr| == vertexDist[p + 1] - vertexDist[p] + 1
    }

    function Size(): nat
      requires IsSplit(vertexDist, base, |ranks|)
    {
      vertexDist[|ranks|] - base
    }

    /** The columns of the first k ranks, in order. */
    ghost function Prefix(k: nat): (cols: Columns)
      requires Valid() && k <= |ranks|
      ensures |cols| == vertexDist[k] - base
    {
      if k == 0 then [] else
        assert RankValid(k - 1);
        Prefix(k - 1) + ranks[k - 1].Columns()
    }

    ghost function Gathered(): (cols: Columns)
      requires Valid()
      ensures |cols| == Size()
    {
      Prefix(|ranks|)
    }

    lemma {:induction false} PrefixGrows(k: nat, m: nat)
      requires Valid() && k <= m <= |ranks|
      ensures vertexDist[k] <= vertexDist[m] && Prefix(m)[..vertexDist[k] - base] == Prefix(k)
      decreases m
    {
      if k < m { PrefixGrows(k, m - 1); }
    }

    /** Local column l of rank p is global column vertexDist[p] - base + l. */
    lemma GatheredColumn(p: nat, l: nat)
      requires Valid() && p < |ranks| && l < |ranks[p].colptr| - 1
      ensures RankValid(p) && vertexDist[p] - base + l < Size()
      ensures Gathered()[vertexDist[p] - base + l] == ranks[p].Columns()[l]
    {
      assert RankValid(p);
      PrefixGrows(p + 1, |ranks|);
      assert Prefix(p + 1)[vertexDist[p] - base + l] == ranks[p].Columns()[l];
    }

    lemma RankColumns(p: nat)
      requires Valid() && p < |ranks|
      ensures RankValid(p) && base <= vertexDist[p] <= vertexDist[p + 1] <= vertexDist[|ranks|]
      ensures forall l :: 0 <= l < |ranks[p].colptr| - 1 ==>
                Gathered()[vertexDist[p] - base + l] == ranks[p].Columns()[l]
    {
      assert RankValid(p);
      forall l | 0 <= l < |ranks[p].colptr| - 1
        ensures Gathered()[vertexDist[p] - base + l] == ranks[p].Columns()[l]
      {
        GatheredColumn(p, l);
      }
    }
  }

  ghost predicate IsSplit(vertexDist: seq<nat>, base: nat, np: nat) {
    && |vertexDist| == np + 1
    && vertexDist[0] == base
    && forall p, q :: 0 <= p <= q <= np ==> vertexDist[p] <= vertexDist[q]
  }

  /** The rank that owns vertex v, found as the code finds it: the first block that holds it. */
  function Owner(vertexDist: seq<nat>, v: nat, from: nat): (p: nat)
    requires from < |vertexDist|
    ensures from <= p < |vertexDist|
    ensures p + 1 < |vertexDist| ==> vertexDist[p] <= v < vertexDist[p + 1]
    decreases |vertexDist| - from
  {
    if from + 1 == |vertexDist| || vertexDist[from] <= v < vertexDist[from + 1] then from
    else Owner(vertexDist, v, from + 1)
  }

  lemma {:induction false} OwnerIs(vertexDist: seq<nat>, base: nat, np: nat, v: nat, from: nat, p: nat)
    requires IsSplit(vertexDist, base, np) && from <= p < np && vertexDist[p] <= v < vertexDist[p + 1]
    ensures Owner(vertexDist, v, from) == p
    decreases np - from
  {
    if from < p {
      assert vertexDist[from + 1] <= vertexDist[p];
      OwnerIs(vertexDist, base, np, v, from + 1, p);
    }
  }

  /** A vertex in range has an owner, and it is inside its owner's block. */
  lemma {:induction false} OwnerExists(vertexDist: seq<nat>, base: nat, np: nat, v: nat, from: nat)
    requires IsSplit(vertexDist, base, np) && from < np && vertexDist[from] <= v < vertexDist[np]
    ensures var p := Owner(vertexDist, v, from); p < np && vertexDist[p] <= v < vertexDist[p + 1]
    decreases np - from
  {
    if !(vertexDist[from] <= v < vertexDist[from + 1]) {
      OwnerExists(vertexDist, base, np, v, from + 1);
    }
  }
}
