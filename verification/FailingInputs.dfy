/** One small input for each symPACK promise that holds only under a condition. */
module FailingInputs {
  import opened EliminationTrees
  import opened SparseGraphs
  import opened ConstructedTrees
  import X = Exchange
  import opened Restriction
  import opened PermutingExact
  import opened RoundTrips
  import opened DistGraphs
  import opened Slices
  import R = Redistributing

  // ---- Tree construction: two vertices and one edge, no diagonal stored ----

  function OneEdge(): Columns { [[2], [1]] }

  lemma NothingTaken()
    ensures TakenEdges(OneEdge()) == {} && IsEtree(TakenEdges(OneEdge()), [0, 0, 0])
  {
    var T := TakenEdges(OneEdge());
    forall a: nat, b: nat ensures (a, b) !in T {
      assert !Taken(OneEdge(), a, b) && !Taken(OneEdge(), b, a);
    }
    assert T == {};
    forall j | 0 < j < 3 ensures IsParent(T, 2, j, 0) {
      assert forall k: nat :: j < k ==> !Joined(T, j, k);
    }
  }

  /** The construction gives two roots, and that is not the tree of the one edge. */
  lemma EdgeIsLost()
    ensures Expanded(OneEdge()) && MissesEdge(OneEdge(), 2)
    ensures IsEtree(TakenEdges(OneEdge()), [0, 0, 0]) && !IsEtree(EdgesOf(OneEdge()), [0, 0, 0])
  {
    forall c: nat, r: nat | Stored(OneEdge(), c, r) ensures 0 < r <= 2 && Stored(OneEdge(), r, c) {
      assert (c == 1 && r == 2) || (c == 2 && r == 1);
      assert OneEdge()[r - 1][0] == c;
    }
    assert Expanded(OneEdge());
    assert MissesEdge(OneEdge(), 2);
    NothingTaken();
    ConstructionIsExact(OneEdge(), [0, 0, 0]);
  }

  // ---- ToSymmetric: a diagonal entry stored in column 2 only, so that it is not to be kept ----

  function LateDiagonal(): Csc { Csc(1, [1, 2, 4], [2, 1, 2]) }

  lemma LateDiagonalColumns()
    ensures LateDiagonal().Valid() && LateDiagonal().Columns() == [[2], [1, 2]]
  {
    var s := LateDiagonal();
    assert s.Column(0) == [2] && s.Column(1) == [1, 2];
  }

  lemma LateDiagonalIsExpanded()
    ensures Expanded([[2], [1, 2]])
  {
    var cols := [[2], [1, 2]];
    assert cols[0][0] == 2 && cols[1][0] == 1 && cols[1][1] == 2;
    forall c: nat, r: nat | Stored(cols, c, r) ensures 0 < r <= 2 && Stored(cols, r, c) {
      assert r == 2 || c == 2;
    }
  }

  /** Two rows are pushed and the pointers leave room for one. */
  lemma DiagonalIsNotCounted(t: Csc)
    requires LateDiagonal().Valid() && IsRestricted(LateDiagonal(), 1, false, t)
    ensures Expanded(LateDiagonal().Columns())
    ensures t.colptr[2] == 2 && t.rowind == [2, 2] && !t.Valid()
  {
    LateDiagonalColumns();
    LateDiagonalIsExpanded();
    LateDiagonalPasses();
    hide Csc.Valid, Csc.Column, Csc.Columns, Pushed, X.Prefix, Lower, CountLower;
    RestrictedIsValid(LateDiagonal(), 1, false, t);
  }

  lemma ColumnPasses()
    ensures Lower([2], 1) == [2] && Lower([1, 2], 2) == [2]
    ensures CountLower([2], 1, false) == 1 && CountLower([1, 2], 2, false) == 0
  {
    CountNext([2], 0, 1, false);
    CountNext([1, 2], 0, 2, false);
    CountNext([1, 2], 1, 2, false);
    LowerNext([2], 0, 1);
    LowerNext([1, 2], 0, 2);
    LowerNext([1, 2], 1, 2);
    assert [2][..0] == [] && [2][..1] == [2];
    assert [1, 2][..0] == [] && [1, 2][..1] == [1] && [1, 2][..2] == [1, 2];
    NothingCounted(1, false);
    NothingCounted(2, false);
  }

  lemma LateDiagonalPasses()
    ensures var cols := [[2], [1, 2]];
      && Pushed(cols, 1, 2) == [2, 2] && X.Prefix(Counts(cols, 1, false), 2) == 1
      && !DiagonalCounted(cols, 1, false)
  {
    ColumnPasses();
    hide Lower, CountLower;
    var cols := [[2], [1, 2]];
    var w := Counts(cols, 1, false);
    assert w[0] == 1 && w[1] == 0;
    assert X.Prefix(w, 1) == 1;
    assert Pushed(cols, 1, 1) == [2];
    assert 2 in cols[1];
  }

  // ---- permute_: two vertices, the second with a diagonal entry that is not to be kept ----

  lemma OneDiagonal()
    ensures RowsInside([[], [2]], 1) && AllSorted([[], [2]]) && !Permutable([[], [2]], 1, false, false)
  {
    var cols: Columns := [[], [2]];
    assert cols[1][0] == 2 && 2 in cols[1];
  }

  /** Permuting there and back loses the entry, whatever the permutation. */
  lemma DiagonalIsDropped(lab: seq<nat>, inv: seq<nat>)
    requires InverseLabels(lab, inv) && |lab| == 2
    ensures var P := PermutedTo(lab, false, false, true, 1, [[], [2]]);
      PermutedTo(inv, false, false, true, 1, P) != [[], [2]]
  {
    OneDiagonal();
    hide *;
    PermutationRoundTrip(lab, inv, false, false, 1, [[], [2]]);
  }

  // ---- RedistributeSupernodal: three ranks, the middle one moving on from its only column ----

  /** Four columns with their diagonals, on the ranks as 1, 1 and 2. */
  function FourColumns(): Dist {
    Dist(1, [1, 2, 3, 5], [Csc(1, [1, 2], [1]), Csc(1, [1, 2], [2]), Csc(1, [1, 2, 3], [3, 4])])
  }

  /** Every column a supernode, to be held as 2, 1 and 1. */
  function Singletons(): R.Supernodal { R.Supernodal([1, 2, 3, 4, 5], [1, 3, 4, 5], [1, 2, 3, 4]) }

  lemma RanksAreValid()
    ensures IsSplit(FourColumns().vertexDist, 1, 3)
    ensures FourColumns().RankValid(0) && FourColumns().RankValid(1) && FourColumns().RankValid(2)
  {
  }

  lemma SupernodesAreValid()
    ensures Singletons().Valid(4, 3)
  {
    forall c: nat | c < 4 ensures Singletons().Inside(c) {
      assert Singletons().supMembership[c] == c + 1;
    }
  }

  lemma FourColumnsMayMove()
    ensures R.Redistributable(FourColumns(), Singletons()) && !R.Counted(FourColumns(), Singletons(), 1)
  {
    RanksAreValid();
    SupernodesAreValid();
    Singletons().SplitAt(4, 3, 1);
    hide Dist.RankValid, R.Supernodal.Valid;
    var d := FourColumns();
    forall p | 0 <= p < 3 ensures d.RankValid(p) {
      assert p == 0 || p == 1 || p == 2;
    }
  }

  /** The middle rank keeps the row of the column it gives away. */
  lemma RowsAreLeftOver(g: Csc, d': Dist)
    requires R.Redistributable(FourColumns(), Singletons())
    requires Gathers(FourColumns(), g) && R.Redistributed(FourColumns(), Singletons(), g, d')
    ensures !(d'.Valid() && d'.Gathered() == FourColumns().Gathered())
  {
    FourColumnsMayMove();
    R.RedistributionPreservesGraph(FourColumns(), Singletons(), g, d');
  }

  // ---- RedistributeSupernodal: the first of two ranks has no column and should get the only one ----

  function OneColumn(): Dist { Dist(1, [1, 1, 2], [Csc(1, [1], []), Csc(1, [1, 2], [1])]) }

  function OneSupernode(): R.Supernodal { R.Supernodal([1, 2], [1, 2, 2], [1]) }

  lemma OneColumnIsValid()
    ensures OneColumn().Valid() && OneColumn().Size() == 1
  {
    var d := OneColumn();
    assert IsSplit(d.vertexDist, 1, 2) && d.RankValid(0) && d.RankValid(1);
  }

  lemma OneSupernodeIsValid()
    ensures OneSupernode().Valid(1, 2)
  {
    assert OneSupernode().Inside(0);
  }

  /** The first rank counts that it sends minus one column to the ranks after it. */
  lemma MinusOneColumn()
    ensures R.Given(OneColumn(), OneSupernode()) && !R.SameLeaders(OneColumn(), OneSupernode())
    ensures R.OwnCounts(0, 0, 0, 1) == (0, -1)
  {
    OneColumnIsValid();
    OneSupernodeIsValid();
    hide Dist.Valid, R.Supernodal.Valid;
    assert OneColumn().vertexDist[1] == 1 && OneSupernode().xsuperdist[1] == 2;
  }
}
