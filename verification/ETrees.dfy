/** The elimination tree object. Arrays have length n + 1 with vertex v at index v. */
module ETrees {
  import opened Graphs
  import opened EliminationTrees
  import opened Permutations
  import opened SparseGraphs
  import opened GraphClasses
  import opened DistGraphs
  import opened Orderings
  import opened VirtualForest
  import opened TreeConstruction
  import opened Relabelling
  import opened Postorders
  import opened ChildListsBuild
  import opened Postordering
  import opened Supernodes

  /** Vertices of the rows read so far that lie below i have been taken in. */
  ghost predicate RowsIn(rows: seq<nat>, t: nat, i: nat, D: set<nat>) {
    forall s :: 0 <= s < t && s < |rows| && 0 < rows[s] < i ==> rows[s] in D
  }

  /** Every row read takes all neighbours of vertex i in. */
  lemma ColumnRead(cols: Columns, i: nat, D: set<nat>)
    requires 0 < i <= |cols|
    requires |Rows(cols, i)| < 2 || RowsIn(Rows(cols, i), |Rows(cols, i)|, i, D)
    ensures AllNeighboursIn(TakenEdges(cols), i, D)
  {
    forall k | (i, k) in TakenEdges(cols) && 0 < k < i
      ensures k in D
    {
      var s :| 0 <= s < |Rows(cols, i)| && Rows(cols, i)[s] == k;
    }
  }

  /** A 1-based gathered graph and an ordering of its vertices. */
  ghost predicate Ordered(s: Csc, perm: seq<nat>, invp: seq<nat>) {
    && s.Valid() && s.base == 1 && RowsWithin(s.Columns(), |s.colptr| - 1)
    && |perm| == |invp| == |s.colptr| && Inverses(invp, perm)
  }

  ghost function OrderedColumns(s: Csc, perm: seq<nat>, invp: seq<nat>): (P: Columns)
    requires Ordered(s, perm, invp)
    ensures |P| == |s.colptr| - 1
  {
    PermutedColumns(s.Columns(), perm, invp)
  }

  /** Position i of the ordered columns is the column of vertex perm[i], rows renamed. */
  lemma OrderedRows(s: Csc, perm: seq<nat>, invp: seq<nat>, i: nat)
    requires Ordered(s, perm, invp) && 0 < i < |perm|
    ensures 0 < perm[i] < |s.colptr| && 1 <= s.colptr[perm[i] - 1] <= s.colptr[perm[i]] <= |s.rowind| + 1
    ensures var P := OrderedColumns(s, perm, invp); var first := s.colptr[perm[i] - 1];
      && |Rows(P, i)| == s.colptr[perm[i]] - first
      && forall t, j :: 0 <= t < |Rows(P, i)| && j == first - 1 + t ==>
           0 < s.rowind[j] < |invp| && Rows(P, i)[t] == invp[s.rowind[j]] > 0
  {
    var node := perm[i];
    ColumnPlace(s, node);
    var rows := Rows(s.Columns(), node);
    var P := OrderedColumns(s, perm, invp);
    assert Rows(P, i) == Renamed(rows, invp);
    hide Csc.Valid, Csc.Column, Csc.Columns, OrderedColumns, PermutedColumns;
    forall t | 0 <= t < |rows|
      ensures 0 < rows[t] < |invp|
    {
      assert Stored(s.Columns(), node, rows[t]);
    }
  }

  /** Where the rows of a column are stored. */
  lemma ColumnPlace(s: Csc, node: nat)
    requires s.Valid() && s.base == 1 && 0 < node < |s.colptr|
    ensures 1 <= s.colptr[node - 1] <= s.colptr[node] <= |s.rowind| + 1
    ensures var rows := Rows(s.Columns(), node);
      && |rows| == s.colptr[node] - s.colptr[node - 1]
      && forall t :: 0 <= t < |rows| ==> rows[t] == s.rowind[s.colptr[node - 1] - 1 + t]
  {
    assert s.colptr[0] <= s.colptr[node - 1] <= s.colptr[node] <= s.colptr[|s.colptr| - 1];
    assert Rows(s.Columns(), node) == s.Column(node - 1);
  }

  /** One entry of the column, at its place in rowind. */
  lemma EntryRead(s: Csc, perm: seq<nat>, invp: seq<nat>, i: nat, j: nat)
    requires Ordered(s, perm, invp) && 0 < i < |perm| && 0 < perm[i] < |s.colptr|
    requires 1 <= s.colptr[perm[i] - 1] <= j < s.colptr[perm[i]] <= |s.rowind| + 1
    ensures var P, t := OrderedColumns(s, perm, invp), j - s.colptr[perm[i] - 1];
      t < |Rows(P, i)| && 0 < s.rowind[j - 1] < |invp| && Rows(P, i)[t] == invp[s.rowind[j - 1]] > 0
  {
    OrderedRows(s, perm, invp, i);
    var P, first := OrderedColumns(s, perm, invp), s.colptr[perm[i] - 1];
    var t := j - first;
    assert |P| == |s.colptr| - 1 && |perm| == |invp| == |s.colptr|;
    hide OrderedColumns, Ordered;
    assert first - 1 + t == j - 1 && t < |Rows(P, i)|;
    assert Rows(P, i)[t] > 0 && s.rowind[j - 1] > 0;
  }

  class ETree {
    var n: nat
    var parent: array<nat>
    var poparent: array<nat>
    var isPostOrdered: bool

    constructor ()
      ensures !isPostOrdered && n == 0 && fresh(parent) && fresh(poparent)
    {
      n, isPostOrdered := 0, false;
      parent, poparent := new nat[1](_ => 0), new nat[1](_ => 0);
    }

    /** The sequential construction on the gathered graph, read through the ordering. It refuses a
        graph that is not expanded; columns with a single entry contribute nothing. */
    method ConstructETree(g: SparseMatrixGraph, order: Ordering) returns (ok: bool)
      requires g.Valid() && order.Valid() && Ordered(g.Storage(), order.perm[..], order.invp[..])
      modifies this
      ensures n == g.size && !isPostOrdered && poparent == old(poparent)
      ensures ok == g.expanded
      ensures !ok ==> parent == old(parent)
      ensures ok ==> fresh(parent) && parent.Length == n + 1
      ensures ok ==> IsEtree(TakenEdges(OrderedColumns(g.Storage(), order.perm[..], order.invp[..])), parent[..])
    {
      isPostOrdered := false;
      n := g.size;
      ok := g.expanded;
      if ok {
        parent := BuildParents(g.Storage(), order.perm[..], order.invp[..]);
      }
    }

    static method BuildParents(s: Csc, perm: seq<nat>, invp: seq<nat>) returns (parent: array<nat>)
      requires Ordered(s, perm, invp)
      ensures fresh(parent) && parent.Length == |s.colptr|
      ensures IsEtree(TakenEdges(OrderedColumns(s, perm, invp)), parent[..])
    {
      hide Linked;
      hide IsEtree;
      var n := |s.colptr| - 1;
      parent := new nat[n + 1](_ => 0);
      var ancstr := new nat[n + 1](_ => 0);
      ghost var P := OrderedColumns(s, perm, invp);
      ghost var E := TakenEdges(P);
      ghost var D: set<nat> := {};
      NothingLinked(E, parent[..], ancstr[..]);
      var i := 1;
      while i <= n
        invariant 1 <= i <= n + 1
        invariant Linked(E, i - 1, D, parent[..], ancstr[..])
        invariant AllNeighboursIn(E, i - 1, D)
      {
        StartColumn(parent, ancstr, i, E, D);
        D := LinkPermutedColumn(s, perm, invp, parent, ancstr, i, P);
        i := i + 1;
      }
      LinkedIsEtree(E, n, D, parent[..], ancstr[..]);
    }

    static method StartColumn(parent: array<nat>, ancstr: array<nat>, i: nat, ghost E: Edges, ghost D: set<nat>)
      requires parent != ancstr && 0 < i < parent.Length
      requires Linked(E, i - 1, D, parent[..], ancstr[..]) && AllNeighboursIn(E, i - 1, D)
      modifies parent, ancstr
      ensures Linked(E, i, {}, parent[..], ancstr[..])
    {
      ghost var par, anc := parent[..], ancstr[..];
      NewVertex(E, i - 1, D, par, anc);
      assert anc[i] == 0 && par[i] == 0;
      parent[i] := 0;
      ancstr[i] := 0;
      assert parent[..] == par && ancstr[..] == anc;
    }

    /** Takes in the column that the ordering puts at position i. */
    static method LinkPermutedColumn(s: Csc, perm: seq<nat>, invp: seq<nat>, parent: array<nat>, ancstr: array<nat>,
                                     i: nat, ghost P: Columns)
      returns (ghost D: set<nat>)
      requires Ordered(s, perm, invp) && P == OrderedColumns(s, perm, invp)
      requires |invp| == ancstr.Length == parent.Length && 0 < i < |invp| && parent != ancstr
      requires Linked(TakenEdges(P), i, {}, parent[..], ancstr[..])
      modifies parent, ancstr
      ensures Linked(TakenEdges(P), i, D, parent[..], ancstr[..])
      ensures AllNeighboursIn(TakenEdges(P), i, D)
    {
      hide Linked, OrderedColumns;
      D := {};
      OrderedRows(s, perm, invp, i);
      var node := perm[i];
      var jstrt := s.colptr[node - 1];
      var jstop := s.colptr[node] - 1;
      if jstrt < jstop {
        var j := jstrt;
        while j <= jstop
          invariant jstrt <= j <= jstop + 1
          invariant Linked(TakenEdges(P), i, D, parent[..], ancstr[..])
          invariant RowsIn(Rows(P, i), j - jstrt, i, D)
        {
          EntryRead(s, perm, invp, i, j);
          var nbr := invp[s.rowind[j - 1]];
          if nbr < i {
            D := LinkEntry(parent, ancstr, i, nbr, P, D);
          }
          j := j + 1;
        }
      }
      ColumnRead(P, i, D);
    }

    static method LinkEntry(parent: array<nat>, ancstr: array<nat>, i: nat, nbr: nat, ghost P: Columns,
                            ghost D: set<nat>)
      returns (ghost D': set<nat>)
      requires parent != ancstr && Taken(P, i, nbr)
      requires Linked(TakenEdges(P), i, D, parent[..], ancstr[..])
      modifies parent, ancstr
      ensures D' == D + {nbr} && Linked(TakenEdges(P), i, D', parent[..], ancstr[..])
    {
      ghost var par, anc := parent[..], ancstr[..];
      LinkNeighbour(parent, ancstr, i, nbr);
      LinkStep(TakenEdges(P), i, D, nbr, par, anc, parent[..], ancstr[..]);
      D' := D + {nbr};
    }

    /** The pipelined construction: each rank takes in its own columns and passes parent and ancstr
        on to the next rank; the last rank's parent is broadcast. Every rank refuses a graph that is
        not expanded. */
    static method ConstructDistributed(d: Dist, expanded: bool) returns (ok: bool, parents: seq<seq<nat>>)
      requires d.Valid() && d.base == 1 && RowsWithin(d.Gathered(), d.Size())
      ensures ok == expanded
      ensures ok ==> |parents| == |d.ranks|
      ensures ok ==> forall p :: 0 <= p < |d.ranks| ==>
        |parents[p]| == d.Size() + 1 && IsEtree(TakenEdges(d.Gathered()), parents[p])
    {
      hide Linked, IsEtree;
      ok, parents := expanded, [];
      if !ok { return; }
      var np := |d.ranks|;
      var n := d.Size();
      ghost var P := d.Gathered();
      ghost var D: set<nat> := {};
      var sentParent: seq<nat> := seq(n + 1, _ => 0);
      var sentAncstr: seq<nat> := seq(n + 1, _ => 0);
      NothingLinked(TakenEdges(P), sentParent, sentAncstr);
      var p := 0;
      while p < np
        invariant 0 <= p <= np
        invariant |sentParent| == |sentAncstr| == n + 1
        invariant Linked(TakenEdges(P), d.vertexDist[p] - 1, D, sentParent, sentAncstr)
        invariant AllNeighboursIn(TakenEdges(P), d.vertexDist[p] - 1, D)
      {
        d.RankColumns(p);
        sentParent, sentAncstr, D := ReceiveAndSend(d.ranks[p], d.vertexDist[p], sentParent, sentAncstr, P, D);
        p := p + 1;
      }
      LinkedIsEtree(TakenEdges(P), n, D, sentParent, sentAncstr);
      parents := seq(np, _ => sentParent);
    }

    /** One rank's turn: what it receives from the rank before and what it sends on. */
    static method ReceiveAndSend(s: Csc, fc: nat, recvParent: seq<nat>, recvAncstr: seq<nat>, ghost P: Columns,
                                 ghost D: set<nat>)
      returns (sentParent: seq<nat>, sentAncstr: seq<nat>, ghost D': set<nat>)
      requires s.Valid() && s.base == 1 && 0 < fc && fc + |s.colptr| - 2 <= |P| && RowsWithin(P, |P|)
      requires forall l :: 0 <= l < |s.colptr| - 1 ==> P[fc - 1 + l] == s.Columns()[l]
      requires |recvParent| == |recvAncstr| == |P| + 1
      requires Linked(TakenEdges(P), fc - 1, D, recvParent, recvAncstr) && AllNeighboursIn(TakenEdges(P), fc - 1, D)
      ensures |sentParent| == |sentAncstr| == |P| + 1
      ensures Linked(TakenEdges(P), fc + |s.colptr| - 2, D', sentParent, sentAncstr)
      ensures AllNeighboursIn(TakenEdges(P), fc + |s.colptr| - 2, D')
    {
      hide Linked, AllNeighboursIn, RowsWithin;
      var n := |recvParent| - 1;
      var parent := new nat[n + 1](v requires 0 <= v < |recvParent| => recvParent[v]);
      var ancstr := new nat[n + 1](v requires 0 <= v < |recvAncstr| => recvAncstr[v]);
      assert parent[..] == recvParent && ancstr[..] == recvAncstr;
      D' := LinkRank(s, fc, parent, ancstr, P, D);
      sentParent, sentAncstr := parent[..], ancstr[..];
    }

    /** The local columns of one rank, the first being global column fc. */
    static method LinkRank(s: Csc, fc: nat, parent: array<nat>, ancstr: array<nat>, ghost P: Columns, ghost D: set<nat>)
      returns (ghost D': set<nat>)
      requires s.Valid() && s.base == 1 && 0 < fc && fc + |s.colptr| - 2 <= |P| && RowsWithin(P, |P|)
      requires forall l :: 0 <= l < |s.colptr| - 1 ==> P[fc - 1 + l] == s.Columns()[l]
      requires parent != ancstr && parent.Length == ancstr.Length == |P| + 1
      requires Linked(TakenEdges(P), fc - 1, D, parent[..], ancstr[..]) && AllNeighboursIn(TakenEdges(P), fc - 1, D)
      modifies parent, ancstr
      ensures Linked(TakenEdges(P), fc + |s.colptr| - 2, D', parent[..], ancstr[..])
      ensures AllNeighboursIn(TakenEdges(P), fc + |s.colptr| - 2, D')
    {
      hide Linked;
      D' := D;
      var locCol := 0;
      while locCol < |s.colptr| - 1
        invariant 0 <= locCol <= |s.colptr| - 1
        invariant Linked(TakenEdges(P), fc + locCol - 1, D', parent[..], ancstr[..])
        invariant AllNeighboursIn(TakenEdges(P), fc + locCol - 1, D')
      {
        StartColumn(parent, ancstr, fc + locCol, TakenEdges(P), D');
        D' := LinkLocalColumn(s, locCol, fc + locCol, parent, ancstr, P);
        locCol := locCol + 1;
      }
    }

    static method LinkLocalColumn(s: Csc, locCol: nat, i: nat, parent: array<nat>, ancstr: array<nat>, ghost P: Columns)
      returns (ghost D: set<nat>)
      requires s.Valid() && s.base == 1 && locCol < |s.colptr| - 1
      requires 0 < i <= |P| && RowsWithin(P, |P|) && Rows(P, i) == s.Columns()[locCol]
      requires parent != ancstr && parent.Length == ancstr.Length == |P| + 1
      requires Linked(TakenEdges(P), i, {}, parent[..], ancstr[..])
      modifies parent, ancstr
      ensures Linked(TakenEdges(P), i, D, parent[..], ancstr[..])
      ensures AllNeighboursIn(TakenEdges(P), i, D)
    {
      hide Linked;
      D := {};
      var jstrt := s.colptr[locCol];
      var jstop := s.colptr[locCol + 1] - 1;
      assert Rows(P, i) == s.Column(locCol) == s.rowind[jstrt - 1..jstop];
      if jstrt < jstop {
        var j := jstrt;
        while j <= jstop
          invariant jstrt <= j <= jstop + 1
          invariant Linked(TakenEdges(P), i, D, parent[..], ancstr[..])
          invariant RowsIn(Rows(P, i), j - jstrt, i, D)
        {
          var nbr := s.rowind[j - 1];
          assert Rows(P, i)[j - jstrt] == nbr;
          assert Stored(P, i, nbr);
          if nbr < i {
            D := LinkEntry(parent, ancstr, i, nbr, P, D);
          }
          j := j + 1;
        }
      }
      ColumnRead(P, i, D);
    }

    /** The tree and an ordering of the same vertices. */
    ghost predicate Matches(order: Ordering)
      reads this, parent, poparent, order, order.invp, order.perm
    {
      && parent.Length == n + 1 && Forest(parent[..])
      && order.Valid() && order.invp.Length == n + 1
      && parent != poparent && parent !in {order.invp, order.perm} && poparent !in {order.invp, order.perm}
      && (isPostOrdered ==> poparent.Length == n + 1 && Forest(poparent[..]))
    }

    /** Numbers the vertices in postorder, children in ascending order, and follows the ordering by
        that numbering. Does nothing when the tree is already postordered. */
    method PostOrderTree(order: Ordering) returns (relinvp: array<nat>)
      requires Matches(order)
      modifies this, poparent, order.invp, order.perm
      ensures parent == old(parent) && parent[..] == old(parent[..]) && n == old(n)
      ensures order.invp == old(order.invp) && order.perm == old(order.perm)
      ensures n == 0 || old(isPostOrdered) ==>
        && isPostOrdered == old(isPostOrdered) && poparent == old(poparent) && poparent[..] == old(poparent[..])
        && order.invp[..] == old(order.invp[..]) && order.perm[..] == old(order.perm[..])
      ensures n > 0 && !old(isPostOrdered) ==>
        && isPostOrdered && Matches(order) && fresh(relinvp) && fresh(poparent)
        && FirstPostordered(parent[..], relinvp[..], poparent[..])
        && order.invp[..] == Composed(old(order.invp[..]), relinvp[..])
    {
      hide WalkNumbers, IsRelabelledTree, Composed;
      relinvp := new nat[0];
      if n > 0 && !isPostOrdered {
        var stale := poparent;
        var brother := new nat[n + 1](v reads stale => if 0 <= v < stale.Length then stale[v] else 0);
        relinvp := PostOrderLinks(parent, brother);
        order.Compose(relinvp);
        poparent := brother;
        isPostOrdered := true;
      }
    }

    /** Postorders again with the child of least key last among its siblings, moving the keys along.
        q0 and invp0 are the tree and the labels just before the sorting, s the renaming it applies.
        Without vertices the original writes its closing zero before the first slot of the links. */
    method SortChildren(cc: array<int>, order: Ordering)
      returns (inside: bool, ghost s0: seq<nat>, ghost q0: seq<nat>, ghost invp0: seq<nat>, ghost s: seq<nat>)
      requires Matches(order) && cc.Length == n + 1
      modifies this, poparent, cc, order.invp, order.perm
      ensures inside <==> n > 0
      ensures parent == old(parent) && parent[..] == old(parent[..]) && n == old(n)
      ensures order.invp == old(order.invp) && order.perm == old(order.perm)
      ensures inside ==> isPostOrdered && Matches(order)
      ensures inside && old(isPostOrdered) ==> q0 == old(poparent[..]) && invp0 == old(order.invp[..])
      ensures inside && !old(isPostOrdered) ==>
        FirstPostordered(parent[..], s0, q0) && invp0 == Composed(old(order.invp[..]), s0)
      ensures inside ==> Resorted(q0, old(cc[..]), s, poparent[..], cc[..])
      ensures inside ==> |invp0| == |s| && IsPermutation(invp0) && order.invp[..] == Composed(invp0, s)
    {
      hide FirstPostordered, Resorted;
      s0 := [];
      if !isPostOrdered {
        var relinvp := PostOrderTree(order);
        s0 := relinvp[..];
      }
      q0, invp0 := poparent[..], order.invp[..];
      s := [];
      if n == 0 {
        return false, s0, q0, invp0, s;
      }
      s := SortPostordered(cc, order);
      inside := true;
    }

    method SortPostordered(cc: array<int>, order: Ordering) returns (ghost s: seq<nat>)
      requires Matches(order) && isPostOrdered && n > 0 && cc.Length == n + 1
      modifies this`poparent, cc, order.invp, order.perm
      ensures parent[..] == old(parent[..])
      ensures order.invp == old(order.invp) && order.perm == old(order.perm)
      ensures Matches(order)
      ensures Resorted(old(poparent[..]), old(cc[..]), s, poparent[..], cc[..])
      ensures order.invp.Length == |s| && IsPermutation(old(order.invp[..]))
      ensures order.invp[..] == Composed(old(order.invp[..]), s)
    {
      hide WalkNumbers, IsRelabelledTree, MovedBy, Composed;
      var brother, invpos := SortLinks(poparent, cc);
      s := invpos[..];
      poparent := brother;
      PermuteKeys(cc, invpos);
      order.Compose(invpos);
    }

    /** The tree of the supernodes: xsuper holds their first columns, member the supernode of a column. */
    method ToSupernodalETree(xsuper: seq<nat>, member: seq<nat>) returns (newTree: ETree)
      requires isPostOrdered && poparent.Length == n + 1 && Forest(poparent[..])
      requires IsPartition(xsuper, n) && IsMembership(xsuper, member, n)
      ensures fresh(newTree) && fresh(newTree.parent) && fresh(newTree.poparent)
      ensures newTree.n == |xsuper| - 1 && newTree.isPostOrdered
      ensures Supernodal(poparent[..], xsuper, member, newTree.parent[..]) && Forest(newTree.parent[..])
      ensures newTree.poparent[..] == newTree.parent[..]
    {
      newTree := new ETree();
      newTree.n := |xsuper| - 1;
      var parent := SupernodalParents(poparent, xsuper, member);
      newTree.parent := parent;
      newTree.poparent := new nat[parent.Length](v requires 0 <= v < parent.Length reads parent => parent[v]);
      newTree.isPostOrdered := true;
      QuotientIsForest(poparent[..], xsuper, member, parent[..]);
    }

    static method SupernodalParents(poparent: array<nat>, xsuper: seq<nat>, member: seq<nat>)
      returns (parent: array<nat>)
      requires poparent.Length >= 1 && Forest(poparent[..])
      requires IsPartition(xsuper, poparent.Length - 1) && IsMembership(xsuper, member, poparent.Length - 1)
      ensures fresh(parent) && Supernodal(poparent[..], xsuper, member, parent[..])
    {
      parent := new nat[|xsuper|](_ => 0);
      var snode := 1;
      while snode < |xsuper|
        invariant 1 <= snode <= |xsuper|
        invariant forall s :: 0 < s < snode && 0 <= LastColumn(xsuper, s) < poparent.Length ==>
          poparent[LastColumn(xsuper, s)] < |member| ==>
          parent[s] == var p := poparent[LastColumn(xsuper, s)]; if p == 0 then 0 else member[p]
      {
        assert xsuper[0] < xsuper[snode];
        assert snode < |xsuper| - 1 ==> xsuper[snode] < xsuper[|xsuper| - 1];
        var lc := xsuper[snode] - 1;
        var parentCol := poparent[lc];
        var parentSnode := if parentCol == 0 then 0 else member[parentCol];
        parent[snode] := parentSnode;
        snode := snode + 1;
      }
    }

    static method SortLinks(poparent: array<nat>, cc: array<int>) returns (brother: array<nat>, invpos: array<nat>)
      requires poparent.Length == cc.Length >= 2 && Forest(poparent[..])
      ensures fresh(brother) && brother.Length == poparent.Length && Forest(brother[..])
      ensures fresh(invpos) && invpos.Length == poparent.Length && IsPermutation(invpos[..])
      ensures WalkNumbers(poparent[..], cc[..], invpos[..])
      ensures IsRelabelledTree(poparent[..], invpos[..], brother[..])
    {
      hide WalkNumbers, Built, IsPostorder;
      ghost var par := poparent[..];
      var fson := new nat[poparent.Length](_ => 0);
      brother := new nat[poparent.Length](_ => 0);
      var lroot := LinkChildrenByKey(poparent, cc, fson, brother);
      invpos := NumberByWalk(fson, brother, par, cc[..], lroot);
      RelabelParents(poparent, invpos, brother);
      PostorderedForest(par, invpos[..], brother[..]);
    }

    /** Links, walks and relabels; brother is the resized poparent and becomes the new one. */
    static method PostOrderLinks(parent: array<nat>, brother: array<nat>) returns (invpos: array<nat>)
      requires parent.Length == brother.Length >= 2 && parent != brother && Forest(parent[..])
      modifies brother
      ensures fresh(invpos) && invpos.Length == parent.Length && IsPermutation(invpos[..])
      ensures WalkNumbers(parent[..], NoKeys(parent.Length), invpos[..])
      ensures IsRelabelledTree(parent[..], invpos[..], brother[..]) && Forest(brother[..])
    {
      hide WalkNumbers, Built, IsPostorder;
      ghost var par := parent[..];
      var fson := new nat[parent.Length](_ => 0);
      var lroot := LinkChildren(parent, fson, brother);
      invpos := NumberByWalk(fson, brother, par, NoKeys(parent.Length), lroot);
      RelabelParents(parent, invpos, brother);
      PostorderedForest(par, invpos[..], brother[..]);
    }
  }

  /** q is the tree par renamed by s, the postorder with children in ascending order. */
  ghost predicate FirstPostordered(par: seq<nat>, s: seq<nat>, q: seq<nat>) {
    && Forest(par) && |par| == |s| == |q| >= 2 && IsPermutation(s)
    && WalkNumbers(par, NoKeys(|par|), s)
    && IsRelabelledTree(par, s, q)
  }

  /** q' and cc' are the tree q and the keys cc renamed by s, the postorder with children by key. */
  ghost predicate Resorted(q: seq<nat>, cc: seq<int>, s: seq<nat>, q': seq<nat>, cc': seq<int>) {
    && Forest(q) && |q| == |s| == |q'| == |cc| == |cc'| >= 2 && IsPermutation(s)
    && WalkNumbers(q, cc, s)
    && IsRelabelledTree(q, s, q') && MovedBy(s, cc, cc')
  }

  lemma PostorderedForest(par: seq<nat>, s: seq<nat>, q: seq<nat>)
    requires Forest(par) && |s| == |par| && IsPostorder(par, s) && IsRelabelledTree(par, s, q)
    ensures IsPermutation(s) && Forest(q)
  {
    RelabelledTreeIsForest(par, s, q);
  }
}
