/** The pipelined tree construction on a permuted distributed graph against the sequential one on the
    gathered graph. */
module DistributedTree {
  import opened EliminationTrees
  import opened Permutations
  import opened SparseGraphs
  import opened DistGraphs
  import opened ConstructedTrees
  import opened Permuting
  import opened PermutingExact
  import opened RoundTrips

  /** The ordering's labels counted from 0. */
  function Labels(invp: seq<nat>): (lab: seq<nat>)
    requires |invp| >= 1
    ensures |lab| == |invp| - 1
  {
    seq(|invp| - 1, v requires 0 <= v < |invp| - 1 => if invp[v + 1] > 0 then invp[v + 1] - 1 else 0)
  }

  lemma LabelsAreLabelling(invp: seq<nat>, perm: seq<nat>)
    requires Inverses(invp, perm)
    ensures IsLabelling(Labels(invp))
    ensures forall i :: 0 < i < |perm| ==> 0 < perm[i] < |perm| && Labels(invp)[perm[i] - 1] == i - 1
  {
  }

  lemma {:induction false} RenamedTimes(rows: seq<nat>, invp: seq<nat>, perm: seq<nat>, x: nat)
    requires Inverses(invp, perm) && 0 < x < |invp|
    requires forall j :: 0 <= j < |rows| ==> 0 < rows[j] < |invp|
    ensures multiset(Renamed(rows, invp))[x] == multiset(rows)[perm[x]]
    decreases |rows|
  {
    if rows != [] {
      var front, row := rows[..|rows| - 1], rows[|rows| - 1];
      RenamedTimes(front, invp, perm, x);
      assert rows == front + [row];
      assert Renamed(rows, invp) == Renamed(front, invp) + [invp[row]];
      assert invp[row] == x <==> row == perm[x];
    }
  }

  lemma EntryAgrees(cols: Columns, perm: seq<nat>, invp: seq<nat>, keepDiag: bool, sorted: bool, i: nat, x: nat)
    requires Inverses(invp, perm) && |invp| == |cols| + 1 && RowsInside(cols, 1) && 0 < i <= |cols| && 0 < x <= |cols|
    ensures multiset(Rows(PermutedColumns(cols, perm, invp), i))[x]
         == multiset(PermutedTo(Labels(invp), keepDiag, true, sorted, 1, cols)[i - 1])[x]
  {
    hide PermutedTo, Renamed;
    LabelsAreLabelling(invp, perm);
    RenamedTimes(Rows(cols, perm[i]), invp, perm, x);
    PermutedEntry(Labels(invp), keepDiag, true, sorted, 1, cols, perm[i] - 1, perm[x] - 1);
  }

  lemma RenamedInside(cols: Columns, perm: seq<nat>, invp: seq<nat>, i: nat)
    requires Inverses(invp, perm) && |invp| == |cols| + 1 && RowsInside(cols, 1) && 0 < i <= |cols|
    ensures var rows := Rows(PermutedColumns(cols, perm, invp), i);
      forall j :: 0 <= j < |rows| ==> 0 < rows[j] <= |cols|
  {
  }

  /** Column i of the permuted graph holds what the sequential overload reads as column i, up to order. */
  lemma PermutedColumnAgrees(cols: Columns, perm: seq<nat>, invp: seq<nat>, keepDiag: bool, sorted: bool, i: nat)
    requires Inverses(invp, perm) && |invp| == |cols| + 1 && RowsInside(cols, 1) && 0 < i <= |cols|
    ensures multiset(Rows(PermutedColumns(cols, perm, invp), i))
         == multiset(PermutedTo(Labels(invp), keepDiag, true, sorted, 1, cols)[i - 1])
  {
    hide PermutedTo, Labels;
    var a, b := Rows(PermutedColumns(cols, perm, invp), i),
      PermutedTo(Labels(invp), keepDiag, true, sorted, 1, cols)[i - 1];
    RenamedInside(cols, perm, invp, i);
    LabelsAreLabelling(invp, perm);
    PermutedIsPermutable(Labels(invp), keepDiag, true, sorted, 1, cols);
    var ma: multiset<nat>, mb: multiset<nat> := multiset(a), multiset(b);
    forall x: nat
      ensures ma[x] == mb[x]
    {
      if 0 < x <= |cols| {
        EntryAgrees(cols, perm, invp, keepDiag, sorted, i, x);
      } else {
        AbsentRow(a, x);
        AbsentRow(b, x);
      }
    }
  }

  lemma PermutedColumnsAgree(cols: Columns, perm: seq<nat>, invp: seq<nat>, keepDiag: bool, sorted: bool)
    requires Inverses(invp, perm) && |invp| == |cols| + 1 && RowsInside(cols, 1)
    ensures SameUpToRowOrder(PermutedColumns(cols, perm, invp),
                             PermutedTo(Labels(invp), keepDiag, true, sorted, 1, cols))
  {
    var P, Q := PermutedColumns(cols, perm, invp), PermutedTo(Labels(invp), keepDiag, true, sorted, 1, cols);
    forall c | 0 < c <= |P|
      ensures multiset(Rows(P, c)) == multiset(Rows(Q, c))
    {
      PermutedColumnAgrees(cols, perm, invp, keepDiag, sorted, c);
    }
  }

  /** Distributed equals sequential. d is the expanded graph over any ranks, d' the result of permuting
      it by the ordering onto any split; p is what the sequential overload computes on the gathered
      unpermuted graph with that ordering, q what any rank holds after the pipelined overload on d'. */
  lemma DistributedEqualsSequential(d: Dist, d': Dist, perm: seq<nat>, invp: seq<nat>, keepDiag: bool, sorted: bool,
                                    p: seq<nat>, q: seq<nat>)
    requires d.Valid() && d'.Valid() && d.base == 1 && RowsInside(d.Gathered(), 1)
    requires Inverses(invp, perm) && |invp| == d.Size() + 1
    requires d'.Gathered() == PermutedTo(Labels(invp), keepDiag, true, sorted, 1, d.Gathered())
    requires |p| == |q| && IsEtree(TakenEdges(PermutedColumns(d.Gathered(), perm, invp)), p)
    requires IsEtree(TakenEdges(d'.Gathered()), q)
    ensures p[1..] == q[1..]
  {
    PermutedColumnsAgree(d.Gathered(), perm, invp, keepDiag, sorted);
    SameColumnsSameTree(PermutedColumns(d.Gathered(), perm, invp), d'.Gathered(), p, q);
  }
}
