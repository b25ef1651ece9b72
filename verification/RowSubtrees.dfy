/** What the entries read so far tell about the rows and columns of the factor, and how it is counted. */
module RowSubtrees {
  import opened Graphs
  import opened SubtreeIntervals
  import opened LeastAncestors

  /** Entries (k, i): column k holds row i below its diagonal. */
  type Entries = set<(nat, nat)>

  /** Row i has an entry in a column of the subtree of j. */
  ghost predicate Meets(f: seq<nat>, seen: Entries, j: nat, i: nat)
    requires j < |f|
  {
    exists k: nat :: (k, i) in seen && Under(f, j, k)
  }

  ghost function RowsAt(f: seq<nat>, seen: Entries, j: nat): (rows: set<nat>)
    requires 0 < j < |f|
    ensures forall i :: i in rows <==> 0 < i < |f| && Meets(f, seen, j, i)
  {
    set i | i in UpTo(|f| - 1) && Meets(f, seen, j, i)
  }

  ghost function ColumnsAt(f: seq<nat>, seen: Entries, i: nat): (cols: set<nat>)
    requires 0 < i < |f|
    ensures forall j :: j in cols <==> 0 < j < i && Meets(f, seen, j, i)
  {
    set j | j in UpTo(i - 1) && Meets(f, seen, j, i)
  }

  /** The ancestors of x below a, and x itself. */
  ghost function Path(f: seq<nat>, x: nat, a: nat): (path: set<nat>)
    requires 0 < a < |f|
    ensures forall j :: j in path <==> 0 < j < a && Under(f, j, x)
  {
    set j | j in UpTo(a - 1) && Under(f, j, x)
  }

  // ---- One more entry ----

  /** Entries lie in columns up to low, whose subtrees are within those of their rows. */
  ghost predicate EntriesInTree(f: seq<nat>, seen: Entries, low: nat) {
    forall e :: e in seen ==> 0 < e.0 <= low && e.0 < e.1 < |f| && f[e.1] <= e.0
  }

  /** The last column with an entry in row i is prv, or 0; pleaf is the last one whose subtree held no
      entry of the row before. */
  ghost predicate RowRead(f: seq<nat>, seen: Entries, i: nat, prv: nat, pleaf: nat) {
    && (forall e :: e in seen && e.1 == i ==> prv != 0 && e.0 <= prv)
    && (prv == 0 <==> pleaf == 0)
    && (prv != 0 ==> (prv, i) in seen && (pleaf, i) in seen && prv < |f| && Under(f, prv, pleaf))
  }

  /** An entry in the column in progress puts the row on its path to the root. */
  lemma EntryAdds(f: seq<nat>, seen: Entries, low: nat, i: nat, j: nat, r: nat)
    requires j < |f|
    ensures Meets(f, seen + {(low, i)}, j, r) <==> Meets(f, seen, j, r) || (r == i && Under(f, j, low))
  {
    var seen' := seen + {(low, i)};
    if r == i && Under(f, j, low) {
      assert (low, r) in seen';
    }
    if Meets(f, seen, j, r) {
      var k: nat :| (k, r) in seen && Under(f, j, k);
      assert (k, r) in seen';
    }
  }

  /** On that path the row is met already from where the subtree holds the last entry of the row. */
  lemma MetBefore(f: seq<nat>, seen: Entries, low: nat, i: nat, prv: nat, pleaf: nat, j: nat)
    requires EntriesInTree(f, seen, low) && RowRead(f, seen, i, prv, pleaf) && j < |f| && Under(f, j, low)
    ensures Meets(f, seen, j, i) <==> prv != 0 && f[j] <= prv
  {
    if Meets(f, seen, j, i) {
      var k: nat :| (k, i) in seen && Under(f, j, k);
    }
    if prv != 0 && f[j] <= prv {
      assert (prv, i) in seen;
    }
  }

  /** An entry in a subtree that holds one of the row already changes nothing. */
  lemma NoLeaf(f: seq<nat>, q: seq<nat>, seen: Entries, low: nat, i: nat, prv: nat, pleaf: nat, j: nat, r: nat)
    requires Nested(q, f) && EntriesInTree(f, seen, low) && RowRead(f, seen, i, prv, pleaf) && 0 < low < |f|
    requires f[low] <= prv && 0 < j < |f|
    ensures Meets(f, seen + {(low, i)}, j, r) <==> Meets(f, seen, j, r)
  {
    EntryAdds(f, seen, low, i, j, r);
    if r == i && Under(f, j, low) {
      MetBefore(f, seen, low, i, prv, pleaf, j);
    }
  }

  /** Where the path from the last leaf joins: above that vertex, and only there, the row is met. */
  lemma LeafMeets(f: seq<nat>, q: seq<nat>, seen: Entries, low: nat, i: nat, prv: nat, pleaf: nat, u: nat, j: nat)
    requires Nested(q, f) && EntriesInTree(f, seen, low) && RowRead(f, seen, i, prv, pleaf) && 0 < low < |f|
    requires prv != 0 && prv < f[low] && IsLeast(f, low, pleaf, u) && 0 < j < |f|
    ensures Under(f, u, low)
    ensures Under(f, j, u) ==> Under(f, j, low)
    ensures Under(f, j, low) ==> (Meets(f, seen, j, i) <==> u <= j)
    ensures Under(f, j, low) ==> (Under(f, j, u) <==> u <= j)
  {
    assert pleaf <= prv < f[low] <= low <= u;
    if Under(f, j, low) {
      MetBefore(f, seen, low, i, prv, pleaf, j);
      if f[j] <= prv {
        assert f[j] <= f[prv] <= pleaf <= j;
        assert Under(f, j, pleaf);
      }
      if u <= j {
        assert f[j] <= f[u] <= pleaf;
      }
    }
  }

  // ---- Sums over subtrees ----

  function Sum(w: seq<int>, a: nat, b: nat): int
    requires a <= b <= |w|
  {
    if a == b then 0 else Sum(w, a, b - 1) + w[b - 1]
  }

  lemma {:induction false} SumAfter(w: seq<int>, a: nat, b: nat, x: nat, d: int)
    requires a <= b <= |w| && x < |w|
    ensures Sum(w[x := w[x] + d], a, b) == Sum(w, a, b) + if a <= x < b then d else 0
    decreases b
  {
    if a < b {
      SumAfter(w, a, b - 1, x, d);
    }
  }

  lemma {:induction false} SumSplits(w: seq<int>, a: nat, m: nat, b: nat)
    requires a <= m <= b <= |w|
    ensures Sum(w, a, b) == Sum(w, a, m) + Sum(w, m, b)
    decreases b
  {
    if m < b {
      SumSplits(w, a, m, b - 1);
    }
  }

  function SubtreeSum(w: seq<int>, f: seq<nat>, j: nat): int
    requires 0 < j < |f| == |w| && f[j] <= j
  {
    Sum(w, f[j], j + 1)
  }

  /** The vertices without children among f[j] .. b - 1. */
  ghost function LeavesFrom(f: seq<nat>, a: nat, b: nat): (s: set<nat>)
    requires b <= |f|
    ensures forall x :: x in s <==> a <= x < b && f[x] == x
  {
    set x | a <= x < b && f[x] == x
  }

  /** How many vertices of the subtree of j below low are not j itself. */
  function Below(f: seq<nat>, j: nat, low: nat): (k: int)
    requires j < |f|
  {
    if low <= f[j] then 0 else if low <= j then low - f[j] else j - f[j]
  }

  // ---- Levels ----

  ghost predicate Levels(q: seq<nat>, level: seq<int>) {
    |level| == |q| >= 1 && level[0] == 0 && forall x :: 0 < x < |q| && q[x] < |q| ==> level[x] == level[q[x]] + 1
  }

  /** What lies above a vertex, itself apart, is what its parent lies under. */
  lemma UnderParent(q: seq<nat>, f: seq<nat>, x: nat, j: nat)
    requires Nested(q, f) && 0 < x < |q| && 0 < j < |q|
    ensures Under(f, j, x) && j != x <==> q[x] != 0 && Under(f, j, q[x])
  {
  }

  /** The difference of two levels is the length of the path between them. */
  lemma {:induction false} PathLength(q: seq<nat>, f: seq<nat>, level: seq<int>, x: nat, a: nat)
    requires Nested(q, f) && Levels(q, level) && 0 < x && 0 < a < |q| && Under(f, a, x)
    ensures |Path(f, x, a)| == level[x] - level[a]
    decreases |q| - x
  {
    if x == a {
      assert Path(f, x, a) == {};
    } else {
      PathLength(q, f, level, q[x], a);
      forall j | 0 < j < a ensures j in Path(f, x, a) <==> j == x || j in Path(f, q[x], a) {
        UnderParent(q, f, x, j);
      }
      hide Nested, Under;
      assert Path(f, x, a) == {x} + Path(f, q[x], a);
    }
  }
}
