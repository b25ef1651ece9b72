/** getLColRowCount on the objects: the tree, its ordering and the gathered graph. */
module FactorCounting {
  import opened Graphs
  import opened EliminationTrees
  import opened Permutations
  import opened Relabelling
  import opened SparseGraphs
  import opened ConstructedTrees
  import opened GraphClasses
  import opened Orderings
  import opened ChildListsBuild
  import opened Postordering
  import opened ETrees
  import opened Reorderings
  import opened FactorCounts
  import opened ColumnCounts

  /** The parents in use: of the tree as built, or as postordered. */
  ghost function Parents(tree: ETree): seq<nat>
    reads tree, tree.parent, tree.poparent
  {
    if tree.isPostOrdered then tree.poparent[..] else tree.parent[..]
  }

  ghost function StateOf(tree: ETree, order: Ordering): Labelled
    reads tree, tree.parent, tree.poparent, order, order.invp, order.perm
  {
    Labelled(Parents(tree), order.invp[..], order.perm[..])
  }

  /** The tree is that of the graph under the ordering, with contiguous subtrees once it is postordered. */
  ghost predicate Belongs(tree: ETree, order: Ordering, cols: Columns)
    reads tree, tree.parent, tree.poparent, order, order.invp, order.perm
  {
    && tree.Matches(order) && tree.n == |cols| && Expanded(cols)
    && (tree.n > 0 ==> TreeOf(EdgesOf(cols), StateOf(tree, order)))
    && (tree.n > 0 && tree.isPostOrdered ==> Postordered(tree.poparent[..]))
  }

  /** Postordering keeps the tree of a symmetric pattern, and makes its subtrees contiguous. */
  lemma PostOrderedBelongs(E: Edges, a: Labelled, b: Labelled, s: seq<nat>)
    requires Symmetric(E) && TreeOf(E, a) && FirstPostordered(a.parents, s, b.parents)
    requires b.invp == Composed(a.invp, s) && |b.perm| == |b.invp| && Inverses(b.invp, b.perm)
    ensures TreeOf(E, b) && Forest(b.parents) && Postordered(b.parents)
  {
    WalkNumbersPostorder(a.parents, NoKeys(|a.parents|), s);
    InversesArePermutations(a.invp, a.perm);
    assert Relabels(a, b, s);
    PostOrderKeepsTree(E, a, b, s);
    RenamedIsPostordered(a.parents, s, b.parents);
  }

  lemma GraphIsOrdered(s: Csc, perm: seq<nat>, invp: seq<nat>, q: seq<nat>)
    requires s.Valid() && s.base == 1 && Expanded(s.Columns()) && |perm| == |invp| == |q| == |s.colptr|
    requires Inverses(invp, perm) && Forest(q) && Postordered(q)
    requires |q| >= 2 ==> IsEtree(RelabelledEdges(EdgesOf(s.Columns()), invp), q)
    ensures TreeOfOrdered(s, perm, invp, q)
    ensures EdgesOf(OrderedColumns(s, perm, invp)) == RelabelledEdges(EdgesOf(s.Columns()), invp)
  {
    PermutedColumnsEdges(s.Columns(), perm, invp);
    PermutedIsExpanded(s.Columns(), perm, invp);
  }

  method MakePostOrdered(tree: ETree, order: Ordering, ghost cols: Columns)
    requires Belongs(tree, order, cols)
    modifies tree, tree.poparent, order.invp, order.perm
    ensures order.invp == old(order.invp) && order.perm == old(order.perm)
    ensures tree.n == old(tree.n) && Belongs(tree, order, cols) && (tree.n > 0 ==> tree.isPostOrdered)
  {
    hide FirstPostordered, TreeOf, Postordered, Forest, IsEtree, EdgesOf, RelabelledEdges, Composed, Expanded;
    ghost var a := StateOf(tree, order);
    var relinvp := tree.PostOrderTree(order);
    if tree.n > 0 && !old(tree.isPostOrdered) {
      ExpandedIsSymmetric(cols);
      PostOrderedBelongs(EdgesOf(cols), a, StateOf(tree, order), relinvp[..]);
    }
  }

  lemma ExpandedIsSymmetric(cols: Columns)
    requires Expanded(cols)
    ensures RowsWithin(cols, |cols|) && Symmetric(EdgesOf(cols))
  {
  }

  method CountOn(tree: ETree, order: Ordering, g: SparseMatrixGraph) returns (cc: array<int>, rc: array<int>)
    requires g.Valid() && g.baseval == 1 && tree.n == g.size
    requires Belongs(tree, order, g.Columns()) && (tree.n > 0 ==> tree.isPostOrdered)
    ensures cc.Length == rc.Length == order.invp.Length == g.size + 1
    ensures var E := RelabelledEdges(EdgesOf(g.Columns()), order.invp[..]);
      forall j :: 0 < j <= g.size ==> cc[j] == |FactorColumn(E, g.size, j)| && rc[j] == |FactorRow(E, j)|
  {
    hide Postordered, Forest, IsEtree, EdgesOf, RelabelledEdges, Expanded, FactorColumn, FactorRow, Csc.Valid;
    var q := if tree.n == 0 then [0] else tree.poparent[..];
    OneSlot();
    GraphIsOrdered(g.Storage(), order.perm[..], order.invp[..], q);
    cc, rc := CountNonzeros(g.Storage(), order.perm[..], order.invp[..], q);
  }

  lemma OneSlot()
    ensures Forest([0]) && Postordered([0])
  {
  }

  /** Postorders the tree if need be and counts the nonzeros of every column and every row of the factor of
      the graph under the ordering. A graph that is not expanded is refused. */
  method GetLColRowCount(tree: ETree, order: Ordering, g: SparseMatrixGraph)
    returns (ok: bool, cc: array<int>, rc: array<int>)
    requires g.Valid() && g.baseval == 1 && tree.n == g.size && tree.Matches(order)
    requires g.expanded ==> Belongs(tree, order, g.Columns())
    modifies tree, tree.poparent, order.invp, order.perm
    ensures ok == g.expanded && order.invp == old(order.invp) && order.perm == old(order.perm)
    ensures ok ==> Belongs(tree, order, g.Columns()) && (tree.n > 0 ==> tree.isPostOrdered)
    ensures ok ==> cc.Length == rc.Length == order.invp.Length == g.size + 1
    ensures ok ==> var E := RelabelledEdges(EdgesOf(g.Columns()), order.invp[..]);
      forall j :: 0 < j <= g.size ==> cc[j] == |FactorColumn(E, g.size, j)| && rc[j] == |FactorRow(E, j)|
  {
    hide Belongs, EdgesOf, RelabelledEdges, FactorColumn, FactorRow, FirstPostordered;
    ok := g.expanded;
    if ok {
      MakePostOrdered(tree, order, g.Columns());
      cc, rc := CountOn(tree, order, g);
    } else {
      var relinvp := tree.PostOrderTree(order);
      cc, rc := new int[0], new int[0];
    }
  }
}
