/** The loop of getLColRowCount over the columns: what its arrays say after every entry. */
module ReadingColumns {
  import opened SparseGraphs
  import opened SubtreeIntervals
  import opened LeastAncestors
  import opened RowSubtrees
  import opened RowCounts

  /** A row's last entry and last leaf, whose links can be followed. */
  ghost predicate RowFits(f: seq<nat>, seen: Entries, c: Counters, low: nat, firsts: set<nat>, lflag: bool, i: nat)
    requires i < |c.prvlf| && i < |c.prvnbr|
  {
    && RowRead(f, seen, i, c.prvnbr[i], c.prvlf[i])
    && (c.prvlf[i] == 0 || c.prvlf[i] in firsts || (lflag && c.prvlf[i] == low))
  }

  ghost predicate RowsFit(f: seq<nat>, seen: Entries, c: Counters, low: nat, firsts: set<nat>, lflag: bool) {
    |c.prvlf| == |c.prvnbr| == |f| && forall i :: 0 < i < |f| ==> RowFits(f, seen, c, low, firsts, lflag, i)
  }

  /** Column low is in progress; lflag tells whether it has held a leaf of some row. */
  ghost predicate Reading(t: PostTree, seen: Entries, c: Counters, low: nat, xsup: nat, firsts: set<nat>, lflag: bool) {
    && t.Valid() && 0 < low < |t.f| && LinksFit(t.q, t.f, c.links, low, xsup, firsts)
    && EntriesInTree(t.f, seen, low) && RowsFit(t.f, seen, c, low, firsts, lflag)
    && WeightsFit(t.f, c.weight, seen, low) && RowCountsFit(t.f, c.rc, seen)
    && (!lflag && t.f[low] == low ==> forall e :: e in seen ==> e.0 < low)
  }

  /** The columns below low are done. */
  ghost predicate ColumnsDone(t: PostTree, seen: Entries, c: Counters, low: nat, xsup: nat, firsts: set<nat>) {
    && t.Valid() && 0 < low <= |t.f| && LinksFit(t.q, t.f, c.links, low, xsup, firsts)
    && EntriesInTree(t.f, seen, low - 1) && RowsFit(t.f, seen, c, low, firsts, false)
    && WeightsFit(t.f, c.weight, seen, low) && RowCountsFit(t.f, c.rc, seen)
  }

  lemma BeginsColumn(t: PostTree, seen: Entries, c: Counters, low: nat, xsup: nat, firsts: set<nat>)
    requires ColumnsDone(t, seen, c, low, xsup, firsts) && low < |t.f|
    ensures Reading(t, seen, c, low, xsup, firsts, false)
  {
  }

  // ---- One entry ----

  /** The entry lies in a subtree with an earlier entry of its row. */
  lemma NoLeafRow(t: PostTree, seen: Entries, low: nat, i: nat, prv: nat, pleaf: nat)
    requires t.Valid() && EntriesInTree(t.f, seen, low) && RowRead(t.f, seen, i, prv, pleaf)
    requires 0 < low < |t.f| && t.f[low] <= prv
    ensures RowRead(t.f, seen + {(low, i)}, i, low, pleaf)
  {
    var e := (prv, i);
    assert e in seen && prv <= low;
    assert t.f[low] <= t.f[prv] <= pleaf;
  }

  lemma LeafRow(f: seq<nat>, seen: Entries, low: nat, i: nat, prv: nat, pleaf: nat)
    requires EntriesInTree(f, seen, low) && RowRead(f, seen, i, prv, pleaf) && 0 < low < |f| && f[low] <= low
    ensures RowRead(f, seen + {(low, i)}, i, low, low)
  {
  }

  lemma OtherRow(f: seq<nat>, seen: Entries, low: nat, i: nat, r: nat, prv: nat, pleaf: nat)
    requires RowRead(f, seen, r, prv, pleaf) && r != i
    ensures RowRead(f, seen + {(low, i)}, r, prv, pleaf)
  {
  }

  lemma EntryFits(f: seq<nat>, seen: Entries, low: nat, i: nat)
    requires EntriesInTree(f, seen, low) && 0 < low < i < |f| && Under(f, i, low)
    ensures EntriesInTree(f, seen + {(low, i)}, low)
  {
  }

  /** The row and its neighbours after an entry, whether it is a leaf or not. */
  lemma RowsAfter(t: PostTree, seen: Entries, c: Counters, low: nat, firsts: set<nat>, lflag: bool, i: nat,
                  c': Counters, lflag': bool)
    requires t.Valid() && 0 < low < i < |t.f| && EntriesInTree(t.f, seen, low)
    requires RowsFit(t.f, seen, c, low, firsts, lflag) && (lflag ==> lflag')
    requires c'.prvnbr == c.prvnbr[i := low]
    requires if t.f[low] <= c.prvnbr[i] then c'.prvlf == c.prvlf else c'.prvlf == c.prvlf[i := low] && lflag'
    ensures RowsFit(t.f, seen + {(low, i)}, c', low, firsts, lflag')
  {
    hide RowRead, EntriesInTree, Levels;
    forall r | 0 < r < |t.f| ensures RowFits(t.f, seen + {(low, i)}, c', low, firsts, lflag', r) {
      assert RowFits(t.f, seen, c, low, firsts, lflag, r);
      if r != i {
        OtherRow(t.f, seen, low, i, r, c.prvnbr[r], c.prvlf[r]);
      } else if t.f[low] <= c.prvnbr[i] {
        NoLeafRow(t, seen, low, i, c.prvnbr[i], c.prvlf[i]);
      } else {
        LeafRow(t.f, seen, low, i, c.prvnbr[i], c.prvlf[i]);
      }
    }
  }

  lemma NoLeafIsRead(t: PostTree, seen: Entries, c: Counters, low: nat, xsup: nat, firsts: set<nat>, lflag: bool,
                     i: nat)
    requires Reading(t, seen, c, low, xsup, firsts, lflag) && low < i < |t.f| && Under(t.f, i, low)
    requires t.f[low] <= c.prvnbr[i]
    ensures Reading(t, seen + {(low, i)}, c.(prvnbr := c.prvnbr[i := low]), low, xsup, firsts, lflag)
  {
    assert RowFits(t.f, seen, c, low, firsts, lflag, i);
    var e := (c.prvnbr[i], i);
    assert t.f[low] > 0 && e in seen;
    RowsAfter(t, seen, c, low, firsts, lflag, i, c.(prvnbr := c.prvnbr[i := low]), lflag);
    NoLeafKeepsSums(t, seen, low, i, c.prvnbr[i], c.prvlf[i], c.weight, c.rc);
    EntryFits(t.f, seen, low, i);
    hide LinksFit, EntriesInTree, RowsFit, WeightsFit, RowCountsFit;
  }

  lemma LeafIsRead(t: PostTree, seen: Entries, c: Counters, low: nat, xsup: nat, firsts: set<nat>, lflag: bool, i: nat,
                   u: nat, c': Counters)
    requires Reading(t, seen, c, low, xsup, firsts, lflag) && low < i < |t.f| && Under(t.f, i, low)
    requires c.prvnbr[i] < t.f[low] && (c.prvnbr[i] != 0 ==> IsLeast(t.f, low, c.prvlf[i], u))
    requires c'.prvlf == c.prvlf[i := low] && c'.prvnbr == c.prvnbr[i := low]
    requires LinksFit(t.q, t.f, c'.links, low, xsup, firsts)
    requires c'.weight == LeafWeights(c.weight, low, c.prvnbr[i], u)
    requires c'.rc == c.rc[i := c.rc[i] + t.level[low] - t.level[if c.prvnbr[i] == 0 then i else u]]
    ensures Reading(t, seen + {(low, i)}, c', low, xsup, firsts, true)
  {
    hide *;
    ReadingParts(t, seen, c, low, xsup, firsts, lflag);
    LeafIsEntry(t, seen, c, low, xsup, firsts, lflag, i, u);
    LeafSums(t, seen, c, low, i, c.prvnbr[i], c.prvlf[i], u, c');
    RowsAfter(t, seen, c, low, firsts, lflag, i, c', true);
    EntryFits(t.f, seen, low, i);
    MakeReading(t, seen + {(low, i)}, c', low, xsup, firsts);
  }

  lemma ReadingParts(t: PostTree, seen: Entries, c: Counters, low: nat, xsup: nat, firsts: set<nat>, lflag: bool)
    requires Reading(t, seen, c, low, xsup, firsts, lflag)
    ensures t.Valid() && 0 < low < |t.f| && LinksFit(t.q, t.f, c.links, low, xsup, firsts)
    ensures EntriesInTree(t.f, seen, low) && RowsFit(t.f, seen, c, low, firsts, lflag)
    ensures WeightsFit(t.f, c.weight, seen, low) && RowCountsFit(t.f, c.rc, seen)
    ensures |t.f| == |t.q| == |c.links| == |c.prvlf| == |c.prvnbr| == |c.weight| == |c.rc| == |t.level|
  {
  }

  lemma MakeReading(t: PostTree, seen: Entries, c: Counters, low: nat, xsup: nat, firsts: set<nat>)
    requires t.Valid() && 0 < low < |t.f| && LinksFit(t.q, t.f, c.links, low, xsup, firsts)
    requires EntriesInTree(t.f, seen, low) && RowsFit(t.f, seen, c, low, firsts, true)
    requires WeightsFit(t.f, c.weight, seen, low) && RowCountsFit(t.f, c.rc, seen)
    ensures Reading(t, seen, c, low, xsup, firsts, true)
  {
  }

  lemma LeafSums(t: PostTree, seen: Entries, c: Counters, low: nat, i: nat, prv: nat, pleaf: nat, u: nat, c': Counters)
    requires LeafEntry(t, seen, low, i, prv, pleaf, u)
    requires WeightsFit(t.f, c.weight, seen, low) && RowCountsFit(t.f, c.rc, seen)
    requires prv != 0 ==> u < |c.weight| && u < |t.level|
    requires c'.weight == LeafWeights(c.weight, low, prv, u)
    requires c'.rc == c.rc[i := c.rc[i] + t.level[low] - t.level[if prv == 0 then i else u]]
    ensures WeightsFit(t.f, c'.weight, seen + {(low, i)}, low) && RowCountsFit(t.f, c'.rc, seen + {(low, i)})
  {
    hide *;
    LeafKeepsWeights(t, seen, low, i, prv, pleaf, u, c.weight);
    LeafKeepsRowCounts(t, seen, low, i, prv, pleaf, u, c.rc);
  }

  lemma LeafIsEntry(t: PostTree, seen: Entries, c: Counters, low: nat, xsup: nat, firsts: set<nat>, lflag: bool, i: nat,
                    u: nat)
    requires Reading(t, seen, c, low, xsup, firsts, lflag) && low < i < |t.f| && Under(t.f, i, low)
    requires c.prvnbr[i] < t.f[low] && (c.prvnbr[i] != 0 ==> IsLeast(t.f, low, c.prvlf[i], u))
    ensures LeafEntry(t, seen, low, i, c.prvnbr[i], c.prvlf[i], u)
    ensures c.prvnbr[i] != 0 ==> u < |t.f|
  {
    assert RowFits(t.f, seen, c, low, firsts, lflag, i);
  }

  /** A row that has been met has its last leaf on a chain that is done, out of the subtree in progress,
      and a least ancestor that is not done. */
  lemma LeafHasAncestor(t: PostTree, seen: Entries, c: Counters, low: nat, xsup: nat, firsts: set<nat>, lflag: bool,
                        i: nat)
    returns (u: nat)
    requires Reading(t, seen, c, low, xsup, firsts, lflag) && low < i < |t.f|
    requires 0 < c.prvnbr[i] < t.f[low]
    ensures c.prvlf[i] in firsts && !Under(t.f, low, c.prvlf[i]) && IsLeast(t.f, low, c.prvlf[i], u)
  {
    assert RowFits(t.f, seen, c, low, firsts, lflag, i);
    var e := (c.prvlf[i], i);
    assert e in seen;
    u := LeastFrom(t.f, low, c.prvlf[i], i);
  }

  lemma {:induction false} LeastFrom(f: seq<nat>, low: nat, x: nat, hi: nat) returns (u: nat)
    requires low <= hi < |f| && Under(f, hi, x)
    ensures IsLeast(f, low, x, u)
    decreases hi - low
  {
    if Under(f, low, x) {
      u := low;
    } else {
      u := LeastFrom(f, low + 1, x, hi);
    }
  }

  // ---- The column is done ----

  lemma ColumnIsDone(t: PostTree, seen: Entries, c: Counters, low: nat, xsup: nat, firsts: set<nat>, lflag: bool,
                     starts: bool, xsup': nat)
    requires Reading(t, seen, c, low, xsup, firsts, lflag)
    requires starts == (lflag || Children(t.q, |t.q|, low) >= 2) && xsup' == (if starts then low else xsup)
    requires !lflag && t.f[low] == low && (forall e :: e in seen ==> e.0 < low) ==> t.q[low] == 0
    ensures xsup' < |c.links| && t.q[low] < |c.weight|
    ensures ColumnsDone(t, seen, c.(links := c.links[xsup' := t.q[low]],
                                weight := c.weight[t.q[low] := c.weight[t.q[low]] - 1]),
                        low + 1, xsup', firsts + {xsup'})
  {
    hide *;
    ReadingParts(t, seen, c, low, xsup, firsts, lflag);
    LastOfColumn(t, seen, c, low, xsup, firsts, lflag);
    LinkingFits(t.q, t.f, c.links, low, xsup, firsts, starts, xsup');
    ParentPays(t, seen, low, c.weight);
    var c' := c.(links := c.links[xsup' := t.q[low]], weight := c.weight[t.q[low] := c.weight[t.q[low]] - 1]);
    RowsDone(t, seen, c, c', low, xsup', firsts, lflag);
    MakeDone(t, seen, c', low + 1, xsup', firsts + {xsup'});
  }

  /** A column with no leaf, of a vertex with no children, holds nothing. */
  lemma LastOfColumn(t: PostTree, seen: Entries, c: Counters, low: nat, xsup: nat, firsts: set<nat>, lflag: bool)
    requires Reading(t, seen, c, low, xsup, firsts, lflag)
    ensures !lflag && Children(t.q, |t.q|, low) == 0 ==> t.f[low] == low && forall e :: e in seen ==> e.0 < low
  {
    hide Levels, LinksFit, EntriesInTree, RowsFit, WeightsFit, RowCountsFit;
    if Children(t.q, |t.q|, low) == 0 {
      NoChildIsAlone(t.q, t.f, low);
    }
  }

  lemma MakeDone(t: PostTree, seen: Entries, c: Counters, low: nat, xsup: nat, firsts: set<nat>)
    requires t.Valid() && 0 < low <= |t.f| && LinksFit(t.q, t.f, c.links, low, xsup, firsts)
    requires EntriesInTree(t.f, seen, low - 1) && RowsFit(t.f, seen, c, low, firsts, false)
    requires WeightsFit(t.f, c.weight, seen, low) && RowCountsFit(t.f, c.rc, seen)
    ensures ColumnsDone(t, seen, c, low, xsup, firsts)
  {
  }

  lemma RowsDone(t: PostTree, seen: Entries, c: Counters, c': Counters, low: nat, xsup': nat, firsts: set<nat>,
                 lflag: bool)
    requires RowsFit(t.f, seen, c, low, firsts, lflag) && (lflag ==> xsup' == low)
    requires c'.prvlf == c.prvlf && c'.prvnbr == c.prvnbr
    ensures RowsFit(t.f, seen, c', low + 1, firsts + {xsup'}, false)
  {
    hide RowRead;
    var next, firsts' := low + 1, firsts + {xsup'};
    forall i | 0 < i < |t.f| ensures RowFits(t.f, seen, c', next, firsts', false, i) {
      assert RowFits(t.f, seen, c, low, firsts, lflag, i);
    }
  }

  lemma NoChildIsAlone(q: seq<nat>, f: seq<nat>, v: nat)
    requires Nested(q, f) && 0 < v < |q| && Children(q, |q|, v) == 0
    ensures f[v] == v
  {
    if f[v] < v {
      var c := ChildToward(q, f, v, f[v]);
      LastChildIsBefore(q, f, c, v);
    }
  }
}
