/** The links by which the counting of the factor's nonzeros finds least common ancestors. Only the first
    vertex of each chain is linked; the others are never looked up. */
module LeastAncestors {
  import opened SubtreeIntervals

  /** u is the least ancestor of x, or x itself, among the vertices from low on. */
  ghost predicate IsLeast(f: seq<nat>, low: nat, x: nat, u: nat) {
    && low <= u < |f| && Under(f, u, x)
    && forall j :: low <= j < |f| && Under(f, j, x) ==> u <= j
  }

  /** The link of x leads to an ancestor and passes none from low on; past the first vertex of the current
      chain it leads to the first vertex of another, or to one that will be because it has two children. */
  ghost predicate LinkFits(q: seq<nat>, f: seq<nat>, links: seq<nat>, low: nat, xsup: nat, firsts: set<nat>, x: nat)
    requires |f| == |links| == |q| && x < |q|
  {
    var v := links[x];
    && (v == 0 || (x < v < |q| && Under(f, v, x)))
    && (forall j :: low <= j < |q| && Under(f, j, x) ==> v != 0 && v <= j)
    && (x != xsup && v != 0 ==> v in firsts || (low <= v && Children(q, |q|, v) >= 2))
  }

  /** The vertices below low are done; firsts are the first vertices of their chains, xsup that of the
      latest one. */
  ghost predicate LinksFit(q: seq<nat>, f: seq<nat>, links: seq<nat>, low: nat, xsup: nat, firsts: set<nat>) {
    && Nested(q, f) && |links| == |q| && 0 < low <= |q|
    && (forall y :: low <= y < |q| ==> links[y] == y)
    && (forall x :: x in firsts ==> 0 < x < low && LinkFits(q, f, links, low, xsup, firsts, x))
    && (if low == 1 then xsup == 1 && firsts == {} else xsup in firsts && links[xsup] == q[low - 1])
  }

  lemma LinksStart(q: seq<nat>, f: seq<nat>, links: seq<nat>)
    requires Nested(q, f) && |links| == |q| && forall y :: 0 < y < |q| ==> links[y] == y
    ensures LinksFit(q, f, links, 1, 1, {})
  {
  }

  /** One step along the links, towards the least ancestor that is not done. */
  lemma StepUp(q: seq<nat>, f: seq<nat>, links: seq<nat>, low: nat, xsup: nat, firsts: set<nat>, x: nat, u: nat)
    requires LinksFit(q, f, links, low, xsup, firsts) && x in firsts && IsLeast(f, low, x, u)
    ensures var v := links[x];
      && x < v <= u && IsLeast(f, low, v, u) && Under(f, v, x)
      && (v == u || (v in firsts && x != xsup))
  {
    assert LinkFits(q, f, links, low, xsup, firsts, x);
    var v := links[x];
    forall j | low <= j < |f| && Under(f, j, v) ensures Under(f, j, x) {
    }
  }

  /** Where two paths meet above low, the vertex has two children. */
  lemma MeetingHasTwoChildren(q: seq<nat>, f: seq<nat>, low: nat, x: nat, u: nat)
    requires Nested(q, f) && 0 < x < low < |q| && !Under(f, low, x) && IsLeast(f, low, x, u)
    ensures low < u && Children(q, |q|, u) >= 2
  {
    var c := ChildToward(q, f, u, x);
    LastChildIsBefore(q, f, c, u);
  }

  /** Passing over one link keeps what the links are for. */
  lemma HalvingFits(q: seq<nat>, f: seq<nat>, links: seq<nat>, low: nat, xsup: nat, firsts: set<nat>, x: nat, u: nat)
    requires LinksFit(q, f, links, low, xsup, firsts) && x in firsts && IsLeast(f, low, x, u)
    requires links[x] != u && Children(q, |q|, u) >= 2
    ensures links[x] in firsts && links[links[x]] > x
    ensures LinksFit(q, f, links[x := links[links[x]]], low, xsup, firsts)
    ensures IsLeast(f, low, links[links[x]], u) && (links[links[x]] in firsts || links[links[x]] == u)
  {
    StepUp(q, f, links, low, xsup, firsts, x, u);
    var v := links[x];
    StepUp(q, f, links, low, xsup, firsts, v, u);
    var w := links[v];
    var links' := links[x := w];
    assert LinkFits(q, f, links', low, xsup, firsts, x);
    forall y | y in firsts && y != x ensures LinkFits(q, f, links', low, xsup, firsts, y) {
      assert LinkFits(q, f, links, low, xsup, firsts, y);
    }
  }

  /** Finds the least common ancestor of a vertex that is done and the one in progress, halving the path. */
  method FindLca(links: array<nat>, pleaf: nat, ghost q: seq<nat>, ghost f: seq<nat>, ghost low: nat, ghost xsup: nat,
              ghost firsts: set<nat>, ghost u: nat)
    returns (lca: nat)
    requires LinksFit(q, f, links[..], low, xsup, firsts) && low < |q|
    requires pleaf in firsts && !Under(f, low, pleaf) && IsLeast(f, low, pleaf, u)
    modifies links
    ensures LinksFit(q, f, links[..], low, xsup, firsts) && lca == u
  {
    MeetingHasTwoChildren(q, f, low, pleaf, u);
    hide LinksFit, IsLeast, Children, Nested;
    var last1 := pleaf;
    LinksInTable(q, f, links[..], low, xsup, firsts, last1, u);
    var last2 := links[last1];
    var lca' := links[last2];
    while lca' != last2
      invariant LinksFit(q, f, links[..], low, xsup, firsts) && IsLeast(f, low, last1, u)
      invariant last1 in firsts || last1 == u
      invariant last1 < links.Length && last2 == links[last1] && last2 < links.Length && lca' == links[last2]
      invariant lca' == last2 ==> lca' == u
      decreases links.Length - last1
    {
      NotThere(q, f, links[..], low, xsup, firsts, last1, u);
      HalvingFits(q, f, links[..], low, xsup, firsts, last1, u);
      links[last1] := lca';
      last1 := lca';
      LinksInTable(q, f, links[..], low, xsup, firsts, last1, u);
      last2 := links[last1];
      lca' := links[last2];
    }
    lca := lca';
  }

  /** Both lookups lie in the table, and the second one repeats the first only at the end. */
  lemma LinksInTable(q: seq<nat>, f: seq<nat>, links: seq<nat>, low: nat, xsup: nat, firsts: set<nat>, x: nat, u: nat)
    requires LinksFit(q, f, links, low, xsup, firsts) && (x in firsts || x == u) && IsLeast(f, low, x, u)
    ensures x < |links| && links[x] < |links|
    ensures links[links[x]] == links[x] ==> links[x] == u
  {
    if x != u {
      StepUp(q, f, links, low, xsup, firsts, x, u);
      if links[x] != u {
        StepUp(q, f, links, low, xsup, firsts, links[x], u);
      }
    }
  }

  lemma NotThere(q: seq<nat>, f: seq<nat>, links: seq<nat>, low: nat, xsup: nat, firsts: set<nat>, x: nat, u: nat)
    requires LinksFit(q, f, links, low, xsup, firsts) && (x in firsts || x == u) && IsLeast(f, low, x, u)
    requires x < |links| && links[x] < |links| && links[links[x]] != links[x]
    ensures x in firsts && links[x] != u
  {
  }

  /** Done with the vertex in progress: it starts a chain if it is a leaf of some row or has several
      children, and the chain's first vertex is linked past it. */
  lemma LinkingFits(q: seq<nat>, f: seq<nat>, links: seq<nat>, low: nat, xsup: nat, firsts: set<nat>, starts: bool,
                    xsup': nat)
    requires LinksFit(q, f, links, low, xsup, firsts) && low < |q|
    requires Children(q, |q|, low) >= 2 ==> starts
    requires !starts && Children(q, |q|, low) == 0 ==> q[low] == 0
    requires xsup' == if starts then low else xsup
    ensures 0 < xsup' < |q| && LinksFit(q, f, links[xsup' := q[low]], low + 1, xsup', firsts + {xsup'})
  {
    var links', firsts' := links[xsup' := q[low]], firsts + {xsup'};
    forall x | x in firsts' ensures 0 < x < low + 1 && LinkFits(q, f, links', low + 1, xsup', firsts', x) {
      if x == xsup' {
        LatestFits(q, f, links, low, xsup, firsts, starts, xsup');
      } else {
        OtherFits(q, f, links, low, xsup, firsts, starts, xsup', x);
      }
    }
  }

  lemma LatestFits(q: seq<nat>, f: seq<nat>, links: seq<nat>, low: nat, xsup: nat, firsts: set<nat>, starts: bool,
                   xsup': nat)
    requires LinksFit(q, f, links, low, xsup, firsts) && low < |q|
    requires !starts && Children(q, |q|, low) == 0 ==> q[low] == 0
    requires xsup' == if starts then low else xsup
    ensures 0 < xsup' <= low && LinkFits(q, f, links[xsup' := q[low]], low + 1, xsup', firsts + {xsup'}, xsup')
  {
    var p := q[low];
    if low > 1 && !starts {
      assert LinkFits(q, f, links, low, xsup, firsts, xsup);
      if p != 0 {
        ChildrenFound(q, |q|, low);
        var c :| 0 < c < |q| && q[c] == low;
        LastChildIsBefore(q, f, c, low);
        assert Under(f, low, xsup);
      }
    }
    forall j | low + 1 <= j < |q| && Under(f, j, xsup') ensures p != 0 && p <= j {
      assert f[j] <= low;
    }
  }

  lemma OtherFits(q: seq<nat>, f: seq<nat>, links: seq<nat>, low: nat, xsup: nat, firsts: set<nat>, starts: bool,
                  xsup': nat, x: nat)
    requires LinksFit(q, f, links, low, xsup, firsts) && low < |q|
    requires Children(q, |q|, low) >= 2 ==> starts
    requires xsup' == if starts then low else xsup
    requires x in firsts && x != xsup'
    ensures 0 < x < low && 0 < xsup' <= low
    ensures LinkFits(q, f, links[xsup' := q[low]], low + 1, xsup', firsts + {xsup'}, x)
  {
    hide Nested, Children, Under, LinksFit;
    FitsAt(q, f, links, low, xsup, firsts, x);
    OtherEnds(q, f, links, low, xsup, firsts, starts, xsup', x);
  }

  lemma FitsAt(q: seq<nat>, f: seq<nat>, links: seq<nat>, low: nat, xsup: nat, firsts: set<nat>, x: nat)
    requires LinksFit(q, f, links, low, xsup, firsts)
    ensures |f| == |links| == |q| && (low == 1 ==> xsup == 1) && (low > 1 ==> 0 < xsup < low)
    ensures x in firsts ==> 0 < x < low && LinkFits(q, f, links, low, xsup, firsts, x)
  {
  }

  /** Its link leads to the first vertex of a chain, now or later. */
  lemma OtherEnds(q: seq<nat>, f: seq<nat>, links: seq<nat>, low: nat, xsup: nat, firsts: set<nat>, starts: bool,
                  xsup': nat, x: nat)
    requires LinksFit(q, f, links, low, xsup, firsts) && low < |q|
    requires Children(q, |q|, low) >= 2 ==> starts
    requires xsup' == if starts then low else xsup
    requires x in firsts && x != xsup' && x < |links|
    ensures var v := links[x];
      v == 0 || v in firsts || v == low == xsup' || (low + 1 <= v < |q| && Children(q, |q|, v) >= 2)
  {
    assert LinkFits(q, f, links, low, xsup, firsts, x);
    var v := links[x];
    if x == xsup && v > low {
      LastChildIsBefore(q, f, low - 1, v);
    }
  }
}
