/** The two graph objects of symPACK: the gathered graph and one rank's share of a distributed one. */
module GraphClasses {
  import opened SparseGraphs
  import opened DistGraphs
  import opened Exchange
  import opened Expansion
  import opened DistExpansion
  import opened SortedRows

  class SparseMatrixGraph {
    var size: nat
    var baseval: nat
    var keepDiag: bool
    var sorted: bool
    var expanded: bool
    var colptr: seq<nat>
    var rowind: seq<nat>

    function Storage(): Csc
      reads this
    {
      Csc(baseval, colptr, rowind)
    }

    ghost predicate Valid()
      reads this
    {
      && baseval <= 1
      && Storage().Valid()
      && |colptr| == size + 1
    }

    ghost function Columns(): Columns
      requires Valid()
      reads this
    {
      Storage().Columns()
    }

    /** Goes from lower-triangular to full storage. Rows are sorted only if the graph was not marked
        as sorted before. */
    method ExpandSymmetric()
      requires Valid() && LocalRowsInRange(Storage(), size)
      modifies this
      ensures Valid() && expanded && size == old(size) && baseval == old(baseval) && keepDiag == old(keepDiag)
      ensures old(expanded) ==> Storage() == old(Storage()) && sorted == old(sorted)
      ensures !old(expanded) ==>
        sorted && Columns() ==
          var full := ExpandedColumns(old(Columns()), old(baseval)); if old(sorted) then full else SortedColumns(full)
    {
      hide ExpandedColumns, SortedColumns, Csc.Columns, Csc.Valid, LocalRowsInRange;
      if !expanded {
        var s' := ExpandAlone(Storage(), size, sorted);
        colptr, rowind, expanded, sorted := s'.colptr, s'.rowind, true, true;
        assert Storage() == s';
      }
    }
  }

  /** The messages of a graph that is all on one rank go to that rank. */
  lemma {:induction false} AllToSelf(all: seq<Entry>, base: nat, n: nat)
    requires forall e :: e in all ==> e.col < n
    ensures ForRank(all, [base, base + n], base, 0) == all
    decreases |all|
  {
    if all != [] {
      var e, front := all[|all| - 1], all[..|all| - 1];
      AllToSelf(front, base, n);
      OwnerIs([base, base + n], base, 1, e.col + base, 0, 0);
    }
  }

  method ExpandAlone(s: Csc, n: nat, sorted: bool) returns (s': Csc)
    requires s.Valid() && |s.colptr| == n + 1 && LocalRowsInRange(s, n)
    ensures s'.Valid() && s'.base == s.base && |s'.colptr| == n + 1
    ensures s'.Columns() ==
      var full := ExpandedColumns(s.Columns(), s.base); if sorted then full else SortedColumns(full)
  {
    hide Sent, SentFor, ForRank, Destination, Fill, Prefix, Sorted;
    var dist := [s.base, s.base + n];
    ghost var all := SentByAll(ExpandRule(), 0, s);
    LocalSentInRange(s, 0, n);
    RoutedInRange(all, dist, s.base, 1, n);
    var sizes := CountPass(s, 0, ExpandRule(), dist, 1);
    var buf := PackPass(s, 0, ExpandRule(), dist, sizes[..]);
    AllToSelf(all, s.base, n);
    WholeSegment(buf[..], sizes[..]);
    s' := ExpandLocal(s, 0, buf[..]);
    assert s'.Columns() == ExpandedColumns(s.Columns(), s.base);
    if !sorted {
      s' := SortEdges(s');
    }
  }

  lemma WholeSegment(buf: seq<Entry>, sizes: seq<nat>)
    requires |sizes| == 1 && |buf| == Prefix(sizes, 1)
    ensures Segment(buf, sizes, 0) == buf
  {
    assert Prefix(sizes, 0) == 0;
  }
}
