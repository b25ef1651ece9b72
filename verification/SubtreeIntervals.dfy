/** A postordered tree by the first vertices of its subtrees: the subtree of j is f[j] .. j. */
module SubtreeIntervals {
  import opened EliminationTrees
  import opened Reorderings

  /** Vertex x lies in the subtree of j. */
  predicate Under(f: seq<nat>, j: nat, x: nat)
    requires j < |f|
  {
    f[j] <= x <= j
  }

  ghost predicate Intervals(q: seq<nat>, f: seq<nat>)
    requires Forest(q)
  {
    |f| == |q| && forall j :: 0 < j < |q| ==> SubtreeIs(q, f, j)
  }

  ghost predicate SubtreeIs(q: seq<nat>, f: seq<nat>, j: nat)
    requires Forest(q) && 0 < j < |q| == |f|
  {
    0 < f[j] <= j && forall x: nat :: AncestorOrSelf(q, j, x) <==> Under(f, j, x)
  }

  /** The same in terms of the numbers alone: two subtrees are disjoint or nested, and the parent is the
      least vertex whose subtree the vertex lies in, itself apart. */
  ghost predicate Nested(q: seq<nat>, f: seq<nat>) {
    && |f| == |q| >= 1
    && (forall j :: 0 < j < |q| ==> 0 < f[j] <= j)
    && (forall j, k :: 0 < j < k < |q| && f[k] <= j ==> f[k] <= f[j])
    && (forall x :: 0 < x < |q| && q[x] != 0 ==> x < q[x] < |q| && f[q[x]] <= x)
    && (forall x, j :: 0 < x < j < |q| && f[j] <= x ==> q[x] != 0 && q[x] <= j)
  }

  lemma IntervalsNest(q: seq<nat>, f: seq<nat>)
    requires Forest(q) && Intervals(q, f)
    ensures Nested(q, f)
  {
    forall x | 0 < x < |q| && q[x] != 0 ensures x < q[x] < |q| && f[q[x]] <= x {
      assert AncestorOrSelf(q, q[x], x) && SubtreeIs(q, f, q[x]);
    }
    forall x, j | 0 < x < j < |q| && f[j] <= x ensures q[x] != 0 && q[x] <= j {
      assert SubtreeIs(q, f, j) && Under(f, j, x);
      if q[x] != j {
        AncestorIsLarger(q, j, q[x]);
      }
    }
    forall j | 0 < j < |q| ensures 0 < f[j] <= j {
      assert SubtreeIs(q, f, j);
    }
    forall j, k | 0 < j < k < |q| && f[k] <= j ensures f[k] <= f[j] {
      assert SubtreeIs(q, f, j) && SubtreeIs(q, f, k) && Under(f, k, j) && Under(f, j, f[j]);
      if f[j] != j {
        AncestorTrans(q, k, j, f[j]);
      }
      assert Under(f, k, f[j]);
    }
  }

  // ---- Computing the first vertices ----

  ghost predicate FirstInside(q: seq<nat>, f: seq<nat>, j: nat)
    requires Forest(q) && j < |f|
  {
    AncestorOrSelf(q, j, f[j])
  }

  ghost predicate HandedUp(q: seq<nat>, f: seq<nat>, c: nat)
    requires Forest(q) && 0 < c < |q| == |f|
  {
    q[c] != 0 ==> f[q[c]] <= f[c]
  }

  /** The numbers lie in their subtrees, and the vertices below k have handed theirs up. */
  ghost predicate FirstSoFar(q: seq<nat>, f: seq<nat>, k: nat)
    requires Forest(q)
  {
    && |f| == |q|
    && (forall j :: 0 < j < |q| ==> FirstInside(q, f, j))
    && (forall c :: 0 < c < k && c < |q| ==> HandedUp(q, f, c))
  }

  /** Once all vertices have handed up their number, it is the least of each subtree. */
  lemma {:induction false} FirstIsLeast(q: seq<nat>, f: seq<nat>, j: nat, x: nat)
    requires Forest(q) && 0 < j < |q| && 0 < x < |q| && FirstSoFar(q, f, |q|) && AncestorOrSelf(q, j, x)
    ensures f[j] <= x
    decreases |q| - x
  {
    FirstReaches(q, f, j, x);
    assert FirstInside(q, f, x);
    if f[x] != x {
      AncestorIsLarger(q, x, f[x]);
    }
  }

  lemma {:induction false} FirstReaches(q: seq<nat>, f: seq<nat>, j: nat, x: nat)
    requires Forest(q) && 0 < j < |q| && 0 < x < |q| && FirstSoFar(q, f, |q|) && AncestorOrSelf(q, j, x)
    ensures f[j] <= f[x]
    decreases |q| - x
  {
    assert HandedUp(q, f, x);
    if j != x && q[x] != j {
      FirstReaches(q, f, j, q[x]);
    }
  }

  lemma FirstGivesIntervals(q: seq<nat>, f: seq<nat>)
    requires Forest(q) && Postordered(q) && FirstSoFar(q, f, |q|)
    ensures Intervals(q, f)
  {
    forall j | 0 < j < |q| ensures SubtreeIs(q, f, j) {
      assert FirstInside(q, f, j);
      FirstIsLeast(q, f, j, j);
      hide FirstSoFar;
      forall x: nat ensures AncestorOrSelf(q, j, x) <==> Under(f, j, x) {
        if AncestorOrSelf(q, j, x) {
          assert x < |q|;
          FirstIsLeast(q, f, j, x);
          if x != j {
            AncestorIsLarger(q, j, x);
          }
        }
      }
    }
  }

  /** Vertex k hands its number up. */
  lemma HandUp(q: seq<nat>, f: seq<nat>, k: nat)
    requires Forest(q) && FirstSoFar(q, f, k) && 0 < k < |q|
    ensures var p := q[k];
      FirstSoFar(q, if p != 0 && f[k] < f[p] then f[p := f[k]] else f, k + 1)
  {
    var p := q[k];
    if p != 0 && f[k] < f[p] {
      var f' := f[p := f[k]];
      assert FirstInside(q, f, k);
      if f[k] != k {
        AncestorTrans(q, p, k, f[k]);
      }
      assert FirstInside(q, f', p);
      forall j | 0 < j < |q| ensures FirstInside(q, f', j) {
        assert FirstInside(q, f, j);
      }
      forall c | 0 < c < k + 1 ensures HandedUp(q, f', c) {
        assert c != p && (c < k ==> HandedUp(q, f, c));
      }
    }
  }

  // ---- Children ----

  /** How many vertices below k are children of v. */
  function Children(q: seq<nat>, k: nat, v: nat): nat
    requires k <= |q|
  {
    if k <= 1 then 0 else Children(q, k - 1, v) + if q[k - 1] == v then 1 else 0
  }

  lemma {:induction false} ChildrenFound(q: seq<nat>, k: nat, v: nat)
    requires k <= |q|
    ensures Children(q, k, v) >= 1 <==> exists c :: 0 < c < k && q[c] == v
    ensures Children(q, k, v) >= 2 <==> exists c, d :: 0 < c < d < k && q[c] == v == q[d]
    decreases k
  {
    if k > 1 {
      ChildrenFound(q, k - 1, v);
      if q[k - 1] == v && Children(q, k - 1, v) >= 1 {
        var c :| 0 < c < k - 1 && q[c] == v;
        assert 0 < c < k - 1 < k && q[c] == v == q[k - 1];
      }
      if exists c, d :: 0 < c < d < k && q[c] == v == q[d] {
        var c, d :| 0 < c < d < k && q[c] == v == q[d];
        assert 0 < c < k - 1 && q[c] == v;
      }
    }
  }

  /** A vertex with a child has the vertex just before it as its last child, and a vertex whose first
      child comes earlier has two. */
  lemma LastChildIsBefore(q: seq<nat>, f: seq<nat>, c: nat, v: nat)
    requires Nested(q, f) && 0 < c < |q| && q[c] == v != 0
    ensures c < v < |q| && q[v - 1] == v
    ensures Children(q, |q|, v) >= 1
    ensures c < v - 1 ==> Children(q, |q|, v) >= 2
  {
    assert f[v] <= v - 1;
    ChildrenFound(q, |q|, v);
    assert q[v - 1] == v;
  }

  /** The child of u on the way from x. */
  lemma {:induction false} ChildToward(q: seq<nat>, f: seq<nat>, u: nat, x: nat) returns (c: nat)
    requires Nested(q, f) && 0 < x < u < |q| && Under(f, u, x)
    ensures 0 < c < u && q[c] == u && Under(f, c, x)
    decreases |q| - x
  {
    if q[x] == u {
      c := x;
    } else {
      c := ChildToward(q, f, u, q[x]);
    }
  }
}
