/** The sorted tables a thread keeps in front of the segment map, as values: what is kept true of
    them, and why a lookup in them agrees with a scan of the map. */
module CacheTables {
  import opened Segments
  import opened Sorting

  /** An address interval with what it stands for: a segment's hash, or its shared index. */
  datatype Range = Range(start: nat, end: nat, tag: nat)

  /** A hash with the address of its segment. */
  datatype Place = Place(ident: Ident, start: nat)

  function StartOf(e: Range): nat { e.start }

  function IdentOf(t: Place): nat { t.ident }

  function PlaceOf(e: Range): Place { Place(e.tag, e.start) }

  function Places(s: seq<Range>): (r: seq<Place>)
    ensures |r| == |s|
    ensures forall i :: 0 <= i < |s| ==> r[i] == PlaceOf(s[i])
  {
    seq(|s|, i requires 0 <= i < |s| => PlaceOf(s[i]))
  }

  // ---- Searching ----

  /** The first entry that ends at p or later. */
  function UpperBound(s: seq<Range>, p: nat): (i: nat)
    ensures i <= |s|
    ensures forall k :: 0 <= k < i ==> s[k].end < p
    ensures i < |s| ==> p <= s[i].end
  {
    if s == [] then 0
    else if p <= s[0].end then 0
    else
      assert forall k :: 1 <= k < |s| ==> s[k] == s[1..][k - 1];
      1 + UpperBound(s[1..], p)
  }

  predicate Found(s: seq<Range>, p: nat) {
    var i := UpperBound(s, p);
    i < |s| && s[i].start <= p
  }

  /** The first entry whose hash is not below. */
  function LowerBound(s: seq<Place>, ident: Ident): (i: nat)
    ensures i <= |s|
    ensures forall k :: 0 <= k < i ==> s[k].ident < ident
    ensures i < |s| ==> ident <= s[i].ident
  {
    if s == [] then 0
    else if ident <= s[0].ident then 0
    else
      assert forall k :: 1 <= k < |s| ==> s[k] == s[1..][k - 1];
      1 + LowerBound(s[1..], ident)
  }

  predicate FoundIdent(s: seq<Place>, ident: Ident) {
    var i := LowerBound(s, ident);
    i < |s| && s[i].ident == ident
  }

  lemma InOrder(s: seq<Range>, i: nat, j: nat)
    requires SortedBy(s, StartOf) && i <= j < |s|
    ensures s[i].start <= s[j].start
  {
    assert i == j || StartOf(s[i]) <= StartOf(s[j]);
  }

  lemma CachedIsFound(s: seq<Range>, e: Range, p: nat)
    requires SortedBy(s, StartOf) && e in s && e.start <= p <= e.end
    ensures Found(s, p)
  {
    var i := UpperBound(s, p);
    var k :| 0 <= k < |s| && s[k] == e;
    InOrder(s, i, k);
  }

  lemma PlacedIsFound(s: seq<Place>, t: Place)
    requires SortedBy(s, IdentOf) && t in s
    ensures FoundIdent(s, t.ident)
  {
    var i := LowerBound(s, t.ident);
    var k :| 0 <= k < |s| && s[k] == t;
    assert i == k || IdentOf(s[i]) <= IdentOf(s[k]);
  }

  /** Intervals that may touch but not overlap, repetitions allowed. */
  ghost predicate Touching(s: seq<Range>) {
    && (forall i :: 0 <= i < |s| ==> s[i].start < s[i].end)
    && (forall i, j :: 0 <= i < |s| && 0 <= j < |s| ==> NoOverlap(s[i], s[j]))
  }

  ghost predicate NoOverlap(e: Range, f: Range) { e == f || e.end <= f.start || f.end <= e.start }

  /** Looking for a cached start address finds the entry that starts there, exactly when no cached
      entry ends there. Eviction looks for its victim in this way. */
  lemma VictimIsFound(s: seq<Range>, v: Range)
    requires SortedBy(s, StartOf) && Touching(s) && v in s
    ensures UpperBound(s, v.start) < |s|
    ensures s[UpperBound(s, v.start)] == v <==> forall e :: e in s ==> e.end != v.start
  {
    var i := UpperBound(s, v.start);
    var k :| 0 <= k < |s| && s[k] == v;
    assert i <= k && NoOverlap(s[i], s[k]) && s[i] in s;
    InOrder(s, i, k);
    if s[i] == v {
      forall e | e in s ensures e.end != v.start {
        var j :| 0 <= j < |s| && s[j] == e;
        if i <= j {
          InOrder(s, i, j);
        }
      }
    }
  }

  // ---- Tables and map ----

  /** The entry caches this segment under its hash. */
  ghost predicate Caches(s: Segment, e: Range) {
    s.start == e.start && s.end == e.end && s.ident == e.tag
  }

  ghost predicate FromMap(segs: seq<Segment>, e: Range) {
    exists s :: s in segs && Caches(s, e)
  }

  /** The entry caches a segment of the map that has an index, under an index whose table slot holds
      that segment: its present one or one it had before. */
  ghost predicate Indexed(segs: seq<Segment>, starts: seq<nat>, e: Range) {
    && 0 < e.tag < |starts| && starts[e.tag] == e.start
    && exists s :: s in segs && s.start == e.start && s.end == e.end && s.idx > 0
  }

  /** The two tables of segments without an index: the same segments, each table in its own order. */
  ghost predicate TablesAgree(segs: seq<Segment>, ptr: seq<Range>, tkn: seq<Place>) {
    && SortedBy(ptr, StartOf) && SortedBy(tkn, IdentOf)
    && multiset(Places(ptr)) == multiset(tkn)
    && forall e :: e in ptr ==> FromMap(segs, e)
  }

  ghost predicate IndexTableAgrees(segs: seq<Segment>, starts: seq<nat>, idx: seq<Range>) {
    && SortedBy(idx, StartOf)
    && forall e :: e in idx ==> Indexed(segs, starts, e)
  }

  /** The index cached for a segment is the one the map has for it now. */
  ghost predicate IndicesCurrent(segs: seq<Segment>, idx: seq<Range>) {
    forall e, s :: e in idx && s in segs && s.start == e.start ==> s.idx == e.tag
  }

  lemma EntriesTouch(segs: seq<Segment>, ptr: seq<Range>)
    requires WellFormed(segs)
    requires forall e :: e in ptr ==> FromMap(segs, e)
    ensures Touching(ptr)
    ensures forall e, f :: e in ptr && f in ptr ==> e.end != f.start
  {
    forall e, f | e in ptr && f in ptr ensures NoOverlap(e, f) && e.end != f.start {
      assert FromMap(segs, e) && FromMap(segs, f);
      var s :| s in segs && Caches(s, e);
      var t :| t in segs && Caches(t, f);
      if s != t {
        OthersAreApart(segs, s, t);
      }
    }
    forall e | e in ptr ensures e.start < e.end {
      assert FromMap(segs, e);
    }
  }

  /** A pointer strictly inside a segment: the table finds it exactly when that segment is cached,
      and what it finds is that segment. */
  lemma PointerHitIsTheScan(segs: seq<Segment>, ptr: seq<Range>, tkn: seq<Place>, s: Segment, p: nat)
    requires WellFormed(segs) && TablesAgree(segs, ptr, tkn)
    requires s in segs && s.Encloses(p)
    ensures Found(ptr, p) <==> Range(s.start, s.end, s.ident) in ptr
    ensures Found(ptr, p) ==> ptr[UpperBound(ptr, p)] == Range(s.start, s.end, s.ident)
    ensures segs[Scan(segs, p)] == s
  {
    ScanFinds(segs, s, p);
    var i := UpperBound(ptr, p);
    var e := Range(s.start, s.end, s.ident);
    if Found(ptr, p) {
      assert ptr[i] in ptr && FromMap(segs, ptr[i]);
      var t :| t in segs && Caches(t, ptr[i]);
      SameSegment(segs, s, t);
    }
    if e in ptr {
      CachedIsFound(ptr, e, p);
    }
  }

  /** The same for the table of indexed segments. */
  lemma IndexHitIsTheScan(segs: seq<Segment>, starts: seq<nat>, idx: seq<Range>, s: Segment, p: nat)
    requires WellFormed(segs) && IndexTableAgrees(segs, starts, idx)
    requires s in segs && s.Encloses(p)
    ensures Found(idx, p) <==> exists e :: e in idx && e.start == s.start
    ensures Found(idx, p) ==> var e := idx[UpperBound(idx, p)];
      e.start == s.start && 0 < e.tag < |starts| && starts[e.tag] == s.start && s.idx > 0
      && (IndicesCurrent(segs, idx) ==> e.tag == s.idx)
  {
    var i := UpperBound(idx, p);
    if Found(idx, p) {
      assert idx[i] in idx && Indexed(segs, starts, idx[i]);
      var t :| t in segs && t.start == idx[i].start && t.end == idx[i].end && t.idx > 0;
      SameSegment(segs, s, t);
    }
    if e :| e in idx && e.start == s.start {
      assert Indexed(segs, starts, e);
      var t :| t in segs && t.start == e.start && t.end == e.end;
      SameSegment(segs, s, t);
      CachedIsFound(idx, e, p);
    }
  }

  /** Looking up a hash: a hit gives the address the map has for it. */
  lemma TokenHitIsTheScan(segs: seq<Segment>, ptr: seq<Range>, tkn: seq<Place>, ident: Ident)
    requires WellFormed(segs) && TablesAgree(segs, ptr, tkn)
    ensures FoundIdent(tkn, ident) <==> exists e :: e in ptr && e.tag == ident
    ensures FoundIdent(tkn, ident) ==>
      Find(segs, ident) < |segs| && tkn[LowerBound(tkn, ident)].start == segs[Find(segs, ident)].start
  {
    var i := LowerBound(tkn, ident);
    if FoundIdent(tkn, ident) {
      assert tkn[i] in multiset(tkn);
      assert tkn[i] in Places(ptr);
      var k :| 0 <= k < |ptr| && Places(ptr)[k] == tkn[i];
      assert ptr[k] in ptr && FromMap(segs, ptr[k]);
      var s :| s in segs && Caches(s, ptr[k]);
      FindIs(segs, s);
    }
    if e :| e in ptr && e.tag == ident {
      var k :| 0 <= k < |ptr| && ptr[k] == e;
      assert Places(ptr)[k] in multiset(Places(ptr));
      assert PlaceOf(e) in tkn;
      PlacedIsFound(tkn, PlaceOf(e));
    }
  }

  /** Growth of the map leaves the tables true. */
  lemma TablesSurviveGrowth(olds: seq<Segment>, news: seq<Segment>, starts: seq<nat>,
                            ptr: seq<Range>, tkn: seq<Place>, idx: seq<Range>)
    requires Grown(olds, news)
    requires TablesAgree(olds, ptr, tkn) && IndexTableAgrees(olds, starts, idx)
    ensures TablesAgree(news, ptr, tkn) && IndexTableAgrees(news, starts, idx)
    ensures WellFormed(news) && IndicesCurrent(olds, idx) ==> IndicesCurrent(news, idx)
  {
    forall e | e in ptr ensures FromMap(news, e) {
      assert FromMap(olds, e);
      var s :| s in olds && Caches(s, e);
      assert KeptIn(news, s);
    }
    forall e | e in idx ensures Indexed(news, starts, e) {
      assert Indexed(olds, starts, e);
      var s :| s in olds && s.start == e.start && s.end == e.end && s.idx > 0;
      assert KeptIn(news, s);
    }
    if WellFormed(news) && IndicesCurrent(olds, idx) {
      forall e, n | e in idx && n in news && n.start == e.start ensures n.idx == e.tag {
        assert Indexed(olds, starts, e);
        var s :| s in olds && s.start == e.start && s.end == e.end;
        assert KeptIn(news, s);
        var m :| m in news && m.SamePlace(s) && m.idx == s.idx;
        SameSegment(news, m, n);
      }
    }
  }
}
