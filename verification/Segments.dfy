/** The executable segments loaded in one process, and the map that records them. */
module Segments {

  type Ident = nat

  /** The hash that stands for "no segment". */
  const NO_IDENT: Ident := 0

  /** idx is 0 until the segment is given an index that all processes share. */
  datatype Segment = Segment(
    start: nat, end: nat, ident: Ident,
    touched: bool, verified: bool, badVerification: bool, badSegment: bool,
    idx: nat)
  {
    predicate Encloses(p: nat) { start < p < end }

    function SetVerified(): Segment { this.(verified := true, badVerification := false) }

    function SetBadVerification(): Segment { this.(verified := false, badVerification := true) }

    /** The same piece of code at the same place. */
    predicate SamePlace(other: Segment) {
      start == other.start && end == other.end && ident == other.ident
    }
  }

  /** What loading code into one process guarantees: real intervals with a gap between any two, and
      one hash a segment. */
  ghost predicate WellFormed(segs: seq<Segment>) {
    && (forall i :: 0 <= i < |segs| ==> 0 < segs[i].start < segs[i].end && segs[i].ident != NO_IDENT)
    && (forall i, j :: 0 <= i < |segs| && 0 <= j < |segs| && i != j ==> Apart(segs[i], segs[j]))
  }

  ghost predicate Apart(s: Segment, t: Segment) {
    s.ident != t.ident && (s.end < t.start || t.end < s.start)
  }

  /** The two share an address, ends included. */
  predicate Meet(s: Segment, t: Segment) { s.start <= t.end && t.start <= s.end }

  lemma OthersAreApart(segs: seq<Segment>, s: Segment, t: Segment)
    requires WellFormed(segs) && s in segs && t in segs && s != t
    ensures Apart(s, t)
  {
    var i :| 0 <= i < |segs| && segs[i] == s;
    var j :| 0 <= j < |segs| && segs[j] == t;
    assert Apart(segs[i], segs[j]);
  }

  /** Equal hash or a common address: either already makes two segments of a map one. */
  lemma SameSegment(segs: seq<Segment>, s: Segment, t: Segment)
    requires WellFormed(segs) && s in segs && t in segs
    requires s.ident == t.ident || Meet(s, t)
    ensures s == t
  {
    if s != t {
      OthersAreApart(segs, s, t);
    }
  }

  // ---- Scanning the map ----

  /** The first segment whose inside holds p, or |segs|. */
  function Scan(segs: seq<Segment>, p: nat): (i: nat)
    ensures i <= |segs|
    ensures i < |segs| ==> segs[i].Encloses(p)
    ensures forall k :: 0 <= k < i ==> !segs[k].Encloses(p)
  {
    if segs == [] then 0
    else if segs[0].Encloses(p) then 0
    else
      assert forall k :: 1 <= k < |segs| ==> segs[k] == segs[1..][k - 1];
      1 + Scan(segs[1..], p)
  }

  /** The first segment with the hash, or |segs|. */
  function Find(segs: seq<Segment>, ident: Ident): (i: nat)
    ensures i <= |segs|
    ensures i < |segs| ==> segs[i].ident == ident
    ensures forall k :: 0 <= k < i ==> segs[k].ident != ident
  {
    if segs == [] then 0
    else if segs[0].ident == ident then 0
    else
      assert forall k :: 1 <= k < |segs| ==> segs[k] == segs[1..][k - 1];
      1 + Find(segs[1..], ident)
  }

  ghost predicate Has(segs: seq<Segment>, ident: Ident) {
    exists s :: s in segs && s.ident == ident
  }

  lemma FindFinds(segs: seq<Segment>, ident: Ident)
    ensures Find(segs, ident) < |segs| <==> Has(segs, ident)
  {
    var i := Find(segs, ident);
    if i < |segs| {
      assert segs[i] in segs;
    }
  }

  /** In a well-formed map a scan has one answer, whichever way it runs. */
  lemma ScanFinds(segs: seq<Segment>, s: Segment, p: nat)
    requires WellFormed(segs) && s in segs && s.Encloses(p)
    ensures Scan(segs, p) < |segs| && segs[Scan(segs, p)] == s
  {
    var i :| 0 <= i < |segs| && segs[i] == s;
    SameSegment(segs, segs[Scan(segs, p)], s);
  }

  lemma FindIs(segs: seq<Segment>, s: Segment)
    requires WellFormed(segs) && s in segs
    ensures Find(segs, s.ident) < |segs| && segs[Find(segs, s.ident)] == s
  {
    FindFinds(segs, s.ident);
    SameSegment(segs, segs[Find(segs, s.ident)], s);
  }

  // ---- Rebuilding the map ----

  /** Nothing is unloaded: every old segment is still where it was. */
  ghost predicate Covers(loaded: seq<Segment>, segs: seq<Segment>) {
    forall s :: s in segs ==> StillThere(loaded, s)
  }

  ghost predicate StillThere(loaded: seq<Segment>, s: Segment) {
    exists t :: t in loaded && t.SamePlace(s)
  }

  /** Freshly read from the loader: no index, no verification state. */
  ghost predicate Fresh(loaded: seq<Segment>) {
    forall s :: s in loaded ==> s.idx == 0 && !s.verified && !s.badVerification && !s.touched
  }

  /** One segment takes over the kept flags and the index of the old segments with its hash. */
  function Inherit(n: Segment, olds: seq<Segment>): (r: Segment)
    decreases |olds|
  {
    if olds == [] then n else
      var m := Inherit(n, olds[..|olds| - 1]);
      var o := olds[|olds| - 1];
      if o.ident == n.ident
      then m.(touched := m.touched || o.touched, verified := m.verified || o.verified,
              badVerification := m.badVerification || o.badVerification, idx := o.idx)
      else m
  }

  function Rebuilt(olds: seq<Segment>, loaded: seq<Segment>): (r: seq<Segment>)
    ensures |r| == |loaded|
  {
    seq(|loaded|, i requires 0 <= i < |loaded| => Inherit(loaded[i], olds))
  }

  lemma {:induction false} InheritKeepsPlace(n: Segment, olds: seq<Segment>)
    ensures Inherit(n, olds).SamePlace(n) && Inherit(n, olds).badSegment == n.badSegment
    ensures !Has(olds, n.ident) ==> Inherit(n, olds) == n
    decreases |olds|
  {
    if olds != [] {
      var front := olds[..|olds| - 1];
      InheritKeepsPlace(n, front);
      if Has(front, n.ident) {
        assert Has(olds, n.ident);
      }
      assert olds[|olds| - 1] in olds;
    }
  }

  lemma LastHashIsNew(segs: seq<Segment>)
    requires WellFormed(segs) && segs != []
    ensures !Has(segs[..|segs| - 1], segs[|segs| - 1].ident)
  {
    var front, last := segs[..|segs| - 1], segs[|segs| - 1];
    forall s | s in front ensures s.ident != last.ident {
      var i :| 0 <= i < |front| && front[i] == s;
      assert Apart(segs[i], last);
    }
  }

  /** With one old segment of that hash, a fresh segment becomes that segment again. */
  lemma {:induction false} InheritRestores(n: Segment, olds: seq<Segment>, o: Segment)
    requires WellFormed(olds) && o in olds && o.SamePlace(n)
    requires n.idx == 0 && !n.verified && !n.badVerification && !n.touched
    ensures Inherit(n, olds) == o.(badSegment := n.badSegment)
    decreases |olds|
  {
    var front, last := olds[..|olds| - 1], olds[|olds| - 1];
    if last.ident == n.ident {
      SameSegment(olds, last, o);
      LastHashIsNew(olds);
      InheritKeepsPlace(n, front);
    } else {
      assert o in front;
      InheritRestores(n, front, o);
    }
  }

  /** A map after some growth: every segment is still there with its flags and index. */
  ghost predicate Grown(olds: seq<Segment>, news: seq<Segment>) {
    && (forall o :: o in olds ==> KeptIn(news, o))
    && (forall n :: n in news ==> Has(olds, n.ident) || (n.idx == 0 && !n.verified))
  }

  ghost predicate KeptIn(news: seq<Segment>, o: Segment) {
    exists n :: n in news && n.SamePlace(o) && n.idx == o.idx && n.verified == o.verified
  }

  /** Rebuilding the map loses no segment, no verification state and no index, and gives none to a
      segment that is new. */
  lemma RebuildGrows(olds: seq<Segment>, loaded: seq<Segment>)
    requires WellFormed(olds) && WellFormed(loaded) && Fresh(loaded) && Covers(loaded, olds)
    ensures WellFormed(Rebuilt(olds, loaded))
    ensures Grown(olds, Rebuilt(olds, loaded))
  {
    hide Inherit;
    var news := Rebuilt(olds, loaded);
    forall i | 0 <= i < |loaded|
      ensures news[i].SamePlace(loaded[i])
    {
      InheritKeepsPlace(loaded[i], olds);
    }
    forall i, j | 0 <= i < |news| && 0 <= j < |news| && i != j ensures Apart(news[i], news[j]) {
      assert Apart(loaded[i], loaded[j]);
    }
    forall o | o in olds ensures KeptIn(news, o) {
      assert StillThere(loaded, o);
      var t :| t in loaded && t.SamePlace(o);
      var i :| 0 <= i < |loaded| && loaded[i] == t;
      InheritRestores(t, olds, o);
      assert news[i] in news;
    }
    forall n | n in news ensures Has(olds, n.ident) || (n.idx == 0 && !n.verified) {
      var i :| 0 <= i < |news| && news[i] == n;
      InheritKeepsPlace(loaded[i], olds);
      assert loaded[i] in loaded;
    }
  }
}
