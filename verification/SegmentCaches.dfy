/** The lookup caches of one thread over the segment map of its process. */
module SegmentCaches {
  import opened Segments
  import opened CacheTables
  import opened Sorting
  import opened Processes
  import V = Verification
  import opened IndexRuns
  import opened FunctionTokens

  const MAX_CACHE_SIZE: nat := 20

  // ---- Contents ----

  function Without(s: seq<Range>, k: nat): (r: seq<Range>)
    requires k < |s|
    ensures |r| == |s| - 1
    ensures multiset(s) == multiset(r) + multiset{s[k]}
  {
    assert s == s[..k] + [s[k]] + s[k + 1..];
    s[..k] + s[k + 1..]
  }

  lemma PlacesWithout(s: seq<Range>, k: nat)
    requires k < |s|
    ensures multiset(Places(s)) == multiset(Places(Without(s, k))) + multiset{PlaceOf(s[k])}
  {
    assert Places(s) == Places(s[..k]) + [PlaceOf(s[k])] + Places(s[k + 1..]);
    assert Places(Without(s, k)) == Places(s[..k]) + Places(s[k + 1..]);
  }

  lemma {:induction false} PlacesOfPermutation(a: seq<Range>, b: seq<Range>)
    requires multiset(a) == multiset(b)
    ensures multiset(Places(a)) == multiset(Places(b))
    decreases |a|
  {
    hide Places, Without, PlaceOf;
    if a == [] {
      assert |multiset(b)| == |b|;
      assert b == [];
    } else {
      assert a[0] in multiset(b);
      var k :| 0 <= k < |b| && b[k] == a[0];
      PlacesWithout(a, 0);
      PlacesWithout(b, k);
      assert multiset(Without(a, 0)) == multiset(a) - multiset{a[0]};
      assert multiset(Without(b, k)) == multiset(b) - multiset{b[k]};
      PlacesOfPermutation(Without(a, 0), Without(b, k));
    }
  }

  /** The entries after one more segment went in: appended, or over the entry at the slot. */
  function PutAt<T>(s: seq<T>, slot: nat, x: T): (r: seq<T>)
    requires slot <= |s|
  {
    if slot == |s| then s + [x] else s[slot := x]
  }

  lemma StoredContents<T>(s: seq<T>, slot: nat, x: T)
    requires slot <= |s|
    ensures forall e :: e in PutAt(s, slot, x) ==> e == x || e in s
    ensures slot == |s| ==> multiset(PutAt(s, slot, x)) == multiset(s) + multiset{x}
    ensures slot < |s| ==> multiset(PutAt(s, slot, x)) == multiset(s) - multiset{s[slot]} + multiset{x}
  {
  }

  /** Storing one segment in both tables, over entries of one old segment or at the end of both,
      and sorting each keeps the tables in agreement. */
  lemma ActivationKeepsTables(segs: seq<Segment>, ptr: seq<Range>, tkn: seq<Place>, i: nat, v: nat, e: Range,
                              ptr': seq<Range>, tkn': seq<Place>)
    requires TablesAgree(segs, ptr, tkn) && FromMap(segs, e)
    requires i <= |ptr| && v <= |tkn| && (i == |ptr| <==> v == |tkn|)
    requires v < |tkn| ==> PlaceOf(ptr[i]) == tkn[v]
    requires SortedBy(ptr', StartOf) && multiset(ptr') == multiset(PutAt(ptr, i, e))
    requires SortedBy(tkn', IdentOf) && multiset(tkn') == multiset(PutAt(tkn, v, PlaceOf(e)))
    ensures TablesAgree(segs, ptr', tkn')
  {
    hide SortedBy, FromMap;
    StoredContents(ptr, i, e);
    StoredContents(tkn, v, PlaceOf(e));
    PlacesOfPermutation(ptr', PutAt(ptr, i, e));
    PlacesOfStored(ptr, i, e);
    StoredContents(Places(ptr), i, PlaceOf(e));
    forall f | f in ptr' ensures FromMap(segs, f) {
      assert f in multiset(ptr');
      assert f in PutAt(ptr, i, e);
    }
  }

  lemma PlacesOfStored(ptr: seq<Range>, i: nat, e: Range)
    requires i <= |ptr|
    ensures Places(PutAt(ptr, i, e)) == PutAt(Places(ptr), i, PlaceOf(e))
  {
  }

  /** The victim named by the token table is the entry the address search finds. */
  lemma VictimsMatch(segs: seq<Segment>, ptr: seq<Range>, tkn: seq<Place>, v: nat)
    requires WellFormed(segs) && TablesAgree(segs, ptr, tkn) && v < |tkn|
    ensures UpperBound(ptr, tkn[v].start) < |ptr|
    ensures PlaceOf(ptr[UpperBound(ptr, tkn[v].start)]) == tkn[v]
  {
    EntriesTouch(segs, ptr);
    assert tkn[v] in multiset(tkn);
    assert tkn[v] in Places(ptr);
    var k :| 0 <= k < |ptr| && Places(ptr)[k] == tkn[v];
    VictimIsFound(ptr, ptr[k]);
  }

  /** std::sort over the first n entries. */
  method SortPrefix<T(!new)>(a: array<T>, n: nat, key: T -> nat)
    requires n <= a.Length
    modifies a
    ensures SortedBy(a[..n], key)
    ensures multiset(a[..n]) == multiset(old(a[..n]))
    ensures a[n..] == old(a[n..])
  {
    var s := SortedWith(a[..n], key);
    SortedWithIsSorted(a[..n], key);
    assert |s| == |multiset(s)| == |multiset(a[..n])| == n;
    for k := 0 to n
      invariant a[..k] == s[..k] && a[n..] == old(a[n..])
    {
      a[k] := s[k];
    }
    assert a[..n] == s;
  }

  // ---- What holds between caches and map ----

  function RangeOf(s: Segment): Range { Range(s.start, s.end, s.ident) }

  function IndexRangeOf(s: Segment): Range { Range(s.start, s.end, s.idx) }

  /** The segments in the table have no index. */
  ghost predicate Unindexed(segs: seq<Segment>, ptr: seq<Range>) {
    forall e, s :: e in ptr && s in segs && s.start == e.start ==> s.idx == 0
  }

  /** The three tables of a thread match the map and index table of its process. Only tables filled in
      the current epoch are known to hold no segment that has an index by now. */
  ghost predicate CachesAgree(r: V.Rank, epoch: nat, cacheEpoch: nat, ptr: seq<Range>, tkn: seq<Place>,
                              idx: seq<Range>) {
    && TablesAgree(r.segs, ptr, tkn)
    && IndexTableAgrees(r.segs, r.starts, idx)
    && cacheEpoch <= epoch
    && (cacheEpoch == epoch ==> Unindexed(r.segs, ptr))
  }

  lemma GrowthKeepsCaches(r: V.Rank, news: seq<Segment>, epoch: nat, cacheEpoch: nat,
                          ptr: seq<Range>, tkn: seq<Place>, idx: seq<Range>)
    requires CachesAgree(r, epoch, cacheEpoch, ptr, tkn, idx)
    requires WellFormed(news) && Grown(r.segs, news)
    ensures CachesAgree(V.Rank(news, r.starts), epoch, cacheEpoch, ptr, tkn, idx)
    ensures IndicesCurrent(r.segs, idx) ==> IndicesCurrent(news, idx)
  {
    hide WellFormed, IndexTableAgrees, IndicesCurrent;
    TablesSurviveGrowth(r.segs, news, r.starts, ptr, tkn, idx);
    if Unindexed(r.segs, ptr) {
      forall e, n | e in ptr && n in news && n.start == e.start ensures n.idx == 0 {
        assert FromMap(r.segs, e);
        var s :| s in r.segs && Caches(s, e);
        assert KeptIn(news, s);
        var m :| m in news && m.SamePlace(s) && m.idx == s.idx;
        SameStart(news, m, n);
      }
    }
  }

  lemma SameStart(segs: seq<Segment>, s: Segment, t: Segment)
    requires WellFormed(segs) && s in segs && t in segs && s.start == t.start
    ensures s == t
  {
    SameSegment(segs, s, t);
  }

  lemma TouchGrows(segs: seq<Segment>, i: nat)
    requires WellFormed(segs) && i < |segs|
    ensures var touched := segs[i := segs[i].(touched := true)];
      WellFormed(touched) && Grown(segs, touched)
  {
    var touched := segs[i := segs[i].(touched := true)];
    forall j, k | 0 <= j < |segs| && 0 <= k < |segs| && j != k ensures Apart(touched[j], touched[k]) {
      assert Apart(segs[j], segs[k]);
    }
    forall s | s in segs ensures KeptIn(touched, s) {
      var k :| 0 <= k < |segs| && segs[k] == s;
      assert touched[k] in touched;
    }
    forall n | n in touched ensures Has(segs, n.ident) {
      var k :| 0 <= k < |segs| && touched[k] == n;
      assert segs[k] in segs;
    }
  }

  /** The slot of the address table that the next segment goes to: the first free one, or that of the
      victim the token table names. */
  function PtrSlot(ptr: seq<Range>, tkn: seq<Place>, evict: nat): nat
    requires |ptr| == |tkn| == MAX_CACHE_SIZE ==> evict < |tkn|
  {
    if |ptr| == |tkn| == MAX_CACHE_SIZE then UpperBound(ptr, tkn[evict].start) else |ptr|
  }

  function Slot(n: nat, evict: nat): nat { if n == MAX_CACHE_SIZE then evict else n }

  // ---- Looking a pointer up in the map ----

  /** Some segment holds the pointer, ends included. */
  ghost predicate WithinSome(segs: seq<Segment>, p: nat) {
    exists s :: s in segs && s.start <= p <= s.end
  }

  datatype MapHit = Hit(start: nat, end: nat, ident: Ident, idx: nat) | BadHit | Miss

  function HitOf(s: Segment): MapHit {
    if s.badSegment then BadHit else Hit(s.start, s.end, s.ident, s.idx)
  }

  function MapLookup(segs: seq<Segment>, p: nat): MapHit {
    var i := Scan(segs, p);
    if i < |segs| then HitOf(segs[i]) else Miss
  }

  /** The map after a lookup: the segment found, if it may be used, is marked. */
  function AfterLookup(segs: seq<Segment>, p: nat): seq<Segment> {
    var i := Scan(segs, p);
    if i < |segs| && !segs[i].badSegment then segs[i := segs[i].(touched := true)] else segs
  }

  lemma LookupIsStable(segs: seq<Segment>, p: nat)
    ensures MapLookup(AfterLookup(segs, p), p) == MapLookup(segs, p)
  {
    var i, after := Scan(segs, p), AfterLookup(segs, p);
    var k := Scan(after, p);
    if i < |segs| {
      assert after[i].Encloses(p);
      assert k == i;
    } else {
      assert after == segs;
    }
  }

  lemma MissLeavesMap(segs: seq<Segment>, p: nat)
    ensures MapLookup(segs, p) == Miss ==> AfterLookup(segs, p) == segs
  {
  }

  /** A lookup of a pointer strictly inside a segment reports that segment and marks it and no other; one that
      cannot be relocated is refused and nothing is marked. Any other pointer is a miss. */
  lemma LookupMeans(segs: seq<Segment>, p: nat)
    requires WellFormed(segs)
    ensures forall k :: 0 <= k < |segs| && segs[k].start < p < segs[k].end && segs[k].badSegment ==>
      MapLookup(segs, p) == BadHit && AfterLookup(segs, p) == segs
    ensures forall k :: 0 <= k < |segs| && segs[k].start < p < segs[k].end && !segs[k].badSegment ==>
      && MapLookup(segs, p) == Hit(segs[k].start, segs[k].end, segs[k].ident, segs[k].idx)
      && AfterLookup(segs, p) == segs[k := segs[k].(touched := true)]
    ensures (forall k :: 0 <= k < |segs| ==> !(segs[k].start < p < segs[k].end)) ==>
      MapLookup(segs, p) == Miss && AfterLookup(segs, p) == segs
  {
    var i := Scan(segs, p);
    forall k | 0 <= k < |segs| && segs[k].start < p < segs[k].end ensures i == k {
      assert segs[k].Encloses(p);
      var s, t := segs[i], segs[k];
      assert i == k || Apart(s, t);
    }
  }

  /** Where the next segment goes: behind the last entry while there is room; in a full table over the victim,
      which the address table finds as its first entry that ends at the victim's start or later. */
  lemma StoredMeans(ptr: seq<Range>, tkn: seq<Place>, evict: nat, e: Range, i: nat)
    requires |ptr| == |tkn| <= MAX_CACHE_SIZE && evict < MAX_CACHE_SIZE
    ensures |ptr| < MAX_CACHE_SIZE ==>
      && PtrSlot(ptr, tkn, evict) == |ptr| && PutAt(ptr, |ptr|, e) == ptr + [e]
      && PutAt(tkn, Slot(|tkn|, evict), PlaceOf(e)) == tkn + [Place(e.tag, e.start)]
    ensures |ptr| == MAX_CACHE_SIZE ==>
      && PutAt(tkn, Slot(|tkn|, evict), PlaceOf(e)) == tkn[evict := Place(e.tag, e.start)]
      && (i < |ptr| && tkn[evict].start <= ptr[i].end && (forall k :: 0 <= k < i ==> ptr[k].end < tkn[evict].start) ==>
        PtrSlot(ptr, tkn, evict) == i && PutAt(ptr, i, e) == ptr[i := e])
  {
  }

  class SegmapCache {
    const process: Process
    const ptr: array<Range>
    const tkn: array<Place>
    const idx: array<Range>
    var cacheEpoch: nat
    var occupancy: nat
    var evictIndex: nat
    var idxOccupancy: nat
    var idxEvictIndex: nat

    ghost predicate Shape()
      reads this
    {
      && ptr != idx && ptr.Length == tkn.Length == idx.Length == MAX_CACHE_SIZE
      && occupancy <= MAX_CACHE_SIZE && idxOccupancy <= MAX_CACHE_SIZE
      && evictIndex < MAX_CACHE_SIZE && idxEvictIndex < MAX_CACHE_SIZE
    }

    ghost function Ptr(): seq<Range>
      requires Shape()
      reads this, ptr
    {
      ptr[..occupancy]
    }

    ghost function Tkn(): seq<Place>
      requires Shape()
      reads this, tkn
    {
      tkn[..occupancy]
    }

    ghost function Idx(): seq<Range>
      requires Shape()
      reads this, idx
    {
      idx[..idxOccupancy]
    }

    ghost predicate Valid()
      reads this, process, ptr, tkn, idx
    {
      && Shape() && process.Valid()
      && CachesAgree(process.State(), process.epoch, cacheEpoch, Ptr(), Tkn(), Idx())
    }

    ghost predicate Current()
      requires Shape()
      reads this, process, idx
    {
      IndicesCurrent(process.segments, Idx())
    }

    /** No table has an entry that starts where the segment does. */
    ghost predicate NotCached(s: Segment)
      requires Shape()
      reads this, ptr, idx
    {
      forall e :: e in Ptr() || e in Idx() ==> e.start != s.start
    }

    /** Empty, as a thread starts. */
    constructor (p: Process)
      requires p.Valid()
      ensures Valid() && Current() && process == p && fresh(ptr) && fresh(tkn) && fresh(idx)
      ensures Ptr() == [] && Idx() == []
    {
      process := p;
      ptr := new Range[MAX_CACHE_SIZE];
      tkn := new Place[MAX_CACHE_SIZE];
      idx := new Range[MAX_CACHE_SIZE];
      cacheEpoch, occupancy, evictIndex, idxOccupancy, idxEvictIndex := 0, 0, 0, 0, 0;
      new;
      assert Ptr() == [] && Tkn() == [] && Idx() == [];
      assert Places(Ptr()) == [];
    }

    method Append(e: Range)
      requires Shape() && occupancy < MAX_CACHE_SIZE
      modifies this`occupancy, ptr, tkn
      ensures Shape() && Ptr() == old(Ptr()) + [e] && Tkn() == old(Tkn()) + [PlaceOf(e)]
    {
      ptr[occupancy] := e;
      tkn[occupancy] := PlaceOf(e);
      occupancy := occupancy + 1;
    }

    /** Overwrites the victim in both tables. */
    method Evict(e: Range)
      requires Shape() && occupancy == MAX_CACHE_SIZE
      requires var i := UpperBound(Ptr(), Tkn()[evictIndex].start);
        i < MAX_CACHE_SIZE && Ptr()[i].start == Tkn()[evictIndex].start
      modifies this`evictIndex, ptr, tkn
      ensures Shape() && evictIndex == (old(evictIndex) + 1) % MAX_CACHE_SIZE
      ensures Ptr() == old(Ptr())[old(UpperBound(Ptr(), Tkn()[evictIndex].start)) := e]
      ensures Tkn() == old(Tkn())[old(evictIndex) := PlaceOf(e)]
    {
      var oldStart := tkn[evictIndex].start;
      assert ptr[..] == Ptr();
      var it := UpperBound(ptr[..], oldStart);
      assert ptr[it].start == oldStart;
      ptr[it] := e;
      tkn[evictIndex] := PlaceOf(e);
      evictIndex := (evictIndex + 1) % MAX_CACHE_SIZE;
    }

    method SortTables()
      requires Shape()
      modifies ptr, tkn
      ensures SortedBy(Ptr(), StartOf) && SortedBy(Tkn(), IdentOf)
      ensures multiset(Ptr()) == multiset(old(Ptr())) && multiset(Tkn()) == multiset(old(Tkn()))
    {
      hide SortedBy;
      SortPrefix(ptr, occupancy, StartOf);
      SortPrefix(tkn, occupancy, IdentOf);
    }

    /** Writes a segment to its slot in both tables and sorts them. */
    method Write(e: Range)
      requires Shape()
      requires occupancy == MAX_CACHE_SIZE ==> var i := UpperBound(Ptr(), Tkn()[evictIndex].start);
        i < MAX_CACHE_SIZE && Ptr()[i].start == Tkn()[evictIndex].start
      modifies this`occupancy, this`evictIndex, ptr, tkn
      ensures Shape() && SortedBy(Ptr(), StartOf) && SortedBy(Tkn(), IdentOf)
      ensures PtrSlot(old(Ptr()), old(Tkn()), old(evictIndex)) <= old(occupancy)
      ensures multiset(Ptr()) == multiset(PutAt(old(Ptr()), PtrSlot(old(Ptr()), old(Tkn()), old(evictIndex)), e))
      ensures multiset(Tkn()) == multiset(PutAt(old(Tkn()), Slot(old(occupancy), old(evictIndex)), PlaceOf(e)))
      ensures evictIndex == if old(occupancy) < MAX_CACHE_SIZE then old(evictIndex)
        else (old(evictIndex) + 1) % MAX_CACHE_SIZE
    {
      hide SortedBy, UpperBound, PlaceOf;
      ghost var ptr0, tkn0 := Ptr(), Tkn();
      ghost var i, v := PtrSlot(ptr0, tkn0, evictIndex), Slot(occupancy, evictIndex);
      if occupancy < MAX_CACHE_SIZE {
        Append(e);
        assert Ptr() == PutAt(ptr0, i, e) && Tkn() == PutAt(tkn0, v, PlaceOf(e));
        SortTables();
      } else {
        Evict(e);
        assert Ptr() == PutAt(ptr0, i, e) && Tkn() == PutAt(tkn0, v, PlaceOf(e));
        SortTables();
      }
    }

    /** Puts a segment without an index into the address and token tables. */
    method Store(e: Range)
      requires Valid() && FromMap(process.segments, e) && Unindexed(process.segments, [e])
      modifies this`occupancy, this`evictIndex, ptr, tkn
      ensures Valid()
      ensures PtrSlot(old(Ptr()), old(Tkn()), old(evictIndex)) <= old(occupancy)
      ensures multiset(Ptr()) == multiset(PutAt(old(Ptr()), PtrSlot(old(Ptr()), old(Tkn()), old(evictIndex)), e))
      ensures multiset(Tkn()) == multiset(PutAt(old(Tkn()), Slot(old(occupancy), old(evictIndex)), PlaceOf(e)))
      ensures evictIndex == if old(occupancy) < MAX_CACHE_SIZE then old(evictIndex)
        else (old(evictIndex) + 1) % MAX_CACHE_SIZE
    {
      hide TablesAgree, IndexTableAgrees, WellFormed, TableCovers, FromMap, SortedBy, Unindexed, PutAt;
      ghost var ptr0, tkn0 := Ptr(), Tkn();
      ghost var i, v := PtrSlot(ptr0, tkn0, evictIndex), Slot(occupancy, evictIndex);
      if occupancy == MAX_CACHE_SIZE {
        VictimsMatch(process.segments, ptr0, tkn0, evictIndex);
      }
      Write(e);
      ActivationKeepsTables(process.segments, ptr0, tkn0, i, v, e, Ptr(), Tkn());
      StoredUnindexed(process.segments, ptr0, i, e, Ptr());
    }

    method WriteIndexed(e: Range)
      requires Shape()
      modifies this`idxOccupancy, this`idxEvictIndex, idx
      ensures Shape() && SortedBy(Idx(), StartOf)
      ensures multiset(Idx()) == multiset(PutAt(old(Idx()), Slot(old(idxOccupancy), old(idxEvictIndex)), e))
      ensures idxEvictIndex == if old(idxOccupancy) < MAX_CACHE_SIZE then old(idxEvictIndex)
        else (old(idxEvictIndex) + 1) % MAX_CACHE_SIZE
    {
      hide SortedBy;
      PutIndexed(e);
      SortPrefix(idx, idxOccupancy, StartOf);
    }

    method PutIndexed(e: Range)
      requires Shape()
      modifies this`idxOccupancy, this`idxEvictIndex, idx
      ensures Shape() && Idx() == PutAt(old(Idx()), Slot(old(idxOccupancy), old(idxEvictIndex)), e)
      ensures idxEvictIndex == if old(idxOccupancy) < MAX_CACHE_SIZE then old(idxEvictIndex)
        else (old(idxEvictIndex) + 1) % MAX_CACHE_SIZE
    {
      if idxOccupancy < MAX_CACHE_SIZE {
        idx[idxOccupancy] := e;
        idxOccupancy := idxOccupancy + 1;
      } else {
        idx[idxEvictIndex] := e;
        idxEvictIndex := (idxEvictIndex + 1) % MAX_CACHE_SIZE;
      }
    }

    /** Puts a segment with an index into the index cache. */
    method StoreIndexed(e: Range)
      requires Valid() && Indexed(process.segments, process.starts, e)
      modifies this`idxOccupancy, this`idxEvictIndex, idx
      ensures Valid()
      ensures multiset(Idx()) == multiset(PutAt(old(Idx()), Slot(old(idxOccupancy), old(idxEvictIndex)), e))
      ensures idxEvictIndex == if old(idxOccupancy) < MAX_CACHE_SIZE then old(idxEvictIndex)
        else (old(idxEvictIndex) + 1) % MAX_CACHE_SIZE
      ensures old(Current()) && IndicesCurrent(process.segments, [e]) ==> Current()
    {
      hide TablesAgree, WellFormed, TableCovers, Indexed, SortedBy, Unindexed, IndicesCurrent, PutAt, IndexTableAgrees;
      ghost var idx0, v := Idx(), Slot(idxOccupancy, idxEvictIndex);
      WriteIndexed(e);
      StoredIndexed(process.segments, process.starts, idx0, v, e, Idx());
    }

    /** Marks a segment of the map and caches it: by its index when it has one, else by its hash. */
    method Activate(i: nat)
      requires Valid() && i < |process.segments|
      modifies process`segments, this, ptr, tkn, idx
      ensures Valid() && process.segments == old(process.segments)[i := old(process.segments)[i].(touched := true)]
      ensures old(Current()) ==> Current()
      ensures var s := process.segments[i];
        if s.idx > 0 then
          && unchanged(ptr, tkn) && Ptr() == old(Ptr()) && Tkn() == old(Tkn())
          && multiset(Idx()) == multiset(PutAt(old(Idx()), Slot(old(idxOccupancy), old(idxEvictIndex)),
                                               IndexRangeOf(s)))
        else
          && unchanged(idx) && Idx() == old(Idx())
          && PtrSlot(old(Ptr()), old(Tkn()), old(evictIndex)) <= old(occupancy)
          && multiset(Ptr()) == multiset(PutAt(old(Ptr()), PtrSlot(old(Ptr()), old(Tkn()), old(evictIndex)),
                                               RangeOf(s)))
          && multiset(Tkn()) == multiset(PutAt(old(Tkn()), Slot(old(occupancy), old(evictIndex)), PlaceOf(RangeOf(s))))
      ensures cacheEpoch == old(cacheEpoch)
    {
      hide CachesAgree, WellFormed, TableCovers, Grown, IndicesCurrent, PutAt;
      ghost var r := process.State();
      TouchGrows(process.segments, i);
      process.segments := process.segments[i := process.segments[i].(touched := true)];
      GrowthKeepsTable(r, process.segments);
      GrowthKeepsCaches(r, process.segments, process.epoch, cacheEpoch, Ptr(), Tkn(), Idx());
      var seg := process.segments[i];
      SegmentEntries(process.State(), i);
      if seg.idx > 0 {
        StoreIndexed(Range(seg.start, seg.end, seg.idx));
      } else {
        Store(Range(seg.start, seg.end, seg.ident));
      }
    }

    /** A scan of the map, which activates the segment it finds. */
    method TryInactive(p: nat) returns (hit: MapHit)
      requires Valid()
      modifies process`segments, this, ptr, tkn, idx
      ensures Valid() && cacheEpoch == old(cacheEpoch) && (old(Current()) ==> Current())
      ensures hit == MapLookup(old(process.segments), p)
      ensures process.segments == AfterLookup(old(process.segments), p)
    {
      hide CachesAgree, WellFormed, TableCovers, IndicesCurrent;
      var it := 0;
      while it < |process.segments| && !process.segments[it].Encloses(p)
        invariant it <= |process.segments|
        invariant forall k :: 0 <= k < it ==> !process.segments[k].Encloses(p)
      {
        it := it + 1;
      }
      assert Scan(process.segments, p) == it;
      if it == |process.segments| {
        return Miss;
      }
      var seg := process.segments[it];
      if seg.badSegment {
        return BadHit;
      }
      Activate(it);
      hit := Hit(seg.start, seg.end, seg.ident, seg.idx);
    }

    /** Rebuilds the map from what the loader reports. */
    method RebuildMap(loaded: seq<Segment>)
      requires Valid() && Loads(loaded, process.segments)
      modifies process`segments
      ensures Valid() && (old(Current()) ==> Current())
      ensures process.segments == Rebuilt(old(process.segments), loaded)
    {
      hide CachesAgree, WellFormed, TableCovers, Grown, Fresh, Covers;
      ghost var r := process.State();
      process.Rebuild(loaded);
      RebuildGrows(r.segs, loaded);
      GrowthKeepsTable(r, process.segments);
      GrowthKeepsCaches(r, process.segments, process.epoch, cacheEpoch, Ptr(), Tkn(), Idx());
    }

    /** search_map for a pointer: one more try on a rebuilt map. */
    method SearchMap(p: nat, loaded: seq<Segment>) returns (hit: MapHit)
      requires Valid() && Loads(loaded, process.segments)
      modifies process`segments, this, ptr, tkn, idx
      ensures Valid() && (old(Current()) ==> Current())
      ensures process.segments == AfterLookup(
          if MapLookup(old(process.segments), p) == Miss then Rebuilt(old(process.segments), loaded)
          else old(process.segments), p)
      ensures hit == MapLookup(process.segments, p)
    {
      hide CachesAgree, WellFormed, TableCovers, IndicesCurrent, Rebuilt, Loads, AfterLookup, Scan;
      LookupIsStable(process.segments, p);
      MissLeavesMap(process.segments, p);
      hit := TryInactive(p);
      if hit == Miss {
        RebuildMap(loaded);
        LookupIsStable(process.segments, p);
        hit := TryInactive(p);
      }
    }

    /** search_cache for a pointer. Tables from an earlier epoch are dropped. */
    method SearchCache(p: nat) returns (found: bool, it: nat)
      requires Valid()
      modifies this`occupancy, this`cacheEpoch, ptr, tkn
      ensures Valid() && cacheEpoch == process.epoch && evictIndex == old(evictIndex)
      ensures Ptr() == if old(cacheEpoch) == process.epoch then old(Ptr()) else []
      ensures found <==> Found(Ptr(), p)
      ensures found ==> it == UpperBound(Ptr(), p)
    {
      if cacheEpoch == process.epoch {
        it := UpperBound(ptr[..occupancy], p);
        found := Found(ptr[..occupancy], p);
      } else {
        for k := 0 to MAX_CACHE_SIZE
        {
          ptr[k], tkn[k] := Range(0, 0, 0), Place(NO_IDENT, 0);
        }
        occupancy := 0;
        cacheEpoch := process.epoch;
        assert Ptr() == [] && Tkn() == [] && Places([]) == [];
        found, it := false, MAX_CACHE_SIZE;
      }
    }

    /** search_map for a hash. */
    method SearchMapIdent(ident: Ident, loaded: seq<Segment>) returns (found: bool, start: nat)
      requires Valid() && Loads(loaded, process.segments)
      modifies process`segments, this, ptr, tkn, idx
      ensures Valid() && (old(Current()) ==> Current())
      ensures var base := if Find(old(process.segments), ident) < |old(process.segments)| then old(process.segments)
          else Rebuilt(old(process.segments), loaded);
        var i := Find(base, ident);
        && (found <==> i < |base|)
        && (found ==> start == base[i].start && process.segments == base[i := base[i].(touched := true)])
        && Find(process.segments, ident) == i
        && (!found ==> process.segments == base)
    {
      hide CachesAgree, WellFormed, TableCovers, IndicesCurrent, Rebuilt, Loads, Find;
      var it := Find(process.segments, ident);
      if it == |process.segments| {
        RebuildMap(loaded);
        it := Find(process.segments, ident);
      }
      if it == |process.segments| {
        return false, 0;
      }
      found, start := true, process.segments[it].start;
      MarkedIsFound(process.segments, ident);
      Activate(it);
    }

    // ---- Tokens ----

    /** function_token::tokenize. For a pointer strictly inside a usable segment the result is one of
        its tokens by map and index table, whatever is cached; while cached indices are current, it
        is what a scan of the map gives. A pointer that no segment reaches ends the program, and so does one
        into a segment that cannot be relocated, unless it is cached from before. */
    method Tokenize(p: nat, loaded: seq<Segment>) returns (o: Outcome<FnToken>)
      requires Valid() && Loads(loaded, process.segments)
      modifies process`segments, this, ptr, tkn, idx
      ensures Valid() && (old(Current()) ==> Current())
      ensures process.starts == old(process.starts)
      ensures forall s :: s in process.segments && s.Encloses(p) && !s.badSegment ==>
        && IsTokenOf(o, s, p, process.starts, process.primaryStart, process.primaryEnd, process.enforced)
        && (old(Current()) ==> o == TokenOf(s, p, process.primaryStart, process.primaryEnd, process.enforced))
      ensures process.primaryStart <= p < process.primaryEnd ==> o == Value(Single(p - process.primaryStart))
      ensures !(process.primaryStart <= p < process.primaryEnd) ==>
        && (forall s :: s in process.segments && s.start < p < s.end && !s.badSegment && s.idx == 0 ==>
          o == if process.enforced then Unverified else Value(Multi(p - s.start, s.ident)))
        && (forall s :: s in process.segments && s.start < p < s.end && !s.badSegment && s.idx > 0 ==>
          && o.Value? && o.value.MultiIdx? && o.value.offset == p - s.start
          && 0 < o.value.idx < |process.starts| && process.starts[o.value.idx] == s.start
          && (old(Current()) ==> o.value.idx == s.idx))
        && (forall s :: s in process.segments && s.start < p < s.end && s.badSegment && old(NotCached(s)) ==>
          o == Fatal)
        && (!WithinSome(process.segments, p) ==> o == Fatal)
    {
      hide CachesAgree, WellFormed, TableCovers, IndicesCurrent, Rebuilt, Loads, AfterLookup, UpperBound, WithinSome;
      if InPrimary(process.primaryStart, process.primaryEnd, p) {
        return Value(Single(p - process.primaryStart));
      }
      if Found(idx[..idxOccupancy], p) {
        var e := idx[UpperBound(idx[..idxOccupancy], p)];
        IndexHit(process.State(), process.epoch, cacheEpoch, Ptr(), Tkn(), Idx(), p);
        return Value(MultiIdx(p - e.start, e.tag));
      }
      if !process.enforced {
        var found, it := SearchCache(p);
        if found {
          var e := ptr[it];
          PointerHit(process.State(), process.epoch, Ptr(), Tkn(), Idx(), p);
          return Value(Multi(p - e.start, e.tag));
        }
      }
      o := TokenizeByMap(p, loaded);
    }

    /** The last resort: by the map. */
    method TokenizeByMap(p: nat, loaded: seq<Segment>) returns (o: Outcome<FnToken>)
      requires Valid() && Loads(loaded, process.segments) && !InPrimary(process.primaryStart, process.primaryEnd, p)
      modifies process`segments, this, ptr, tkn, idx
      ensures Valid() && (old(Current()) ==> Current())
      ensures process.starts == old(process.starts)
      ensures forall s :: s in process.segments && s.Encloses(p) && !s.badSegment ==>
        && IsTokenOf(o, s, p, process.starts, process.primaryStart, process.primaryEnd, process.enforced)
        && o == TokenOf(s, p, process.primaryStart, process.primaryEnd, process.enforced)
      ensures forall s :: s in process.segments && s.start < p < s.end ==>
        && (s.badSegment ==> o == Fatal)
        && (!s.badSegment && s.idx == 0 ==>
          o == if process.enforced then Unverified else Value(Multi(p - s.start, s.ident)))
        && (!s.badSegment && s.idx > 0 ==> o == Value(MultiIdx(p - s.start, s.idx)))
      ensures !WithinSome(process.segments, p) ==> o == Fatal
    {
      hide CachesAgree, WellFormed, TableCovers, IndicesCurrent, Rebuilt, Loads, AfterLookup, MapLookup;
      var hit := SearchMap(p, loaded);
      ScanHit(process.segments, p);
      MapNamesByIndex(process.State(), p);
      match hit {
        case Hit(start, _, ident, k) =>
          o := if k > 0 then Value(MultiIdx(p - start, k))
            else if !process.enforced then Value(Multi(p - start, ident))
            else Unverified;
        case _ => o := Fatal;
      }
    }

    /** function_token_ms::tokenize: always by hash. */
    method TokenizeHashed(p: nat, loaded: seq<Segment>) returns (o: Outcome<FnToken>)
      requires Valid() && Loads(loaded, process.segments)
      modifies process`segments, this, ptr, tkn, idx
      ensures Valid() && (old(Current()) ==> Current())
      ensures forall s :: s in process.segments && s.Encloses(p) && !s.badSegment ==>
        o == Value(Multi(p - s.start, s.ident))
      ensures forall s :: s in process.segments && s.start < p < s.end && s.badSegment && old(NotCached(s)) ==>
        o == Fatal
      ensures !WithinSome(process.segments, p) ==> o == Fatal
    {
      hide CachesAgree, WellFormed, TableCovers, IndicesCurrent, Rebuilt, Loads, AfterLookup;
      var found, it := SearchCache(p);
      if found {
        var e := ptr[it];
        PointerHit(process.State(), process.epoch, Ptr(), Tkn(), Idx(), p);
        return Value(Multi(p - e.start, e.tag));
      }
      var hit := SearchMap(p, loaded);
      ScanHit(process.segments, p);
      o := if hit.Hit? then Value(Multi(p - hit.start, hit.ident)) else Fatal;
    }

    /** function_token_ms_idx::tokenize: always by index; no token for a segment without one. */
    method TokenizeIndexed(p: nat, loaded: seq<Segment>) returns (o: Outcome<FnToken>)
      requires Valid() && Loads(loaded, process.segments)
      modifies process`segments, this, ptr, tkn, idx
      ensures Valid() && (old(Current()) ==> Current())
      ensures forall s :: s in process.segments && s.Encloses(p) && !s.badSegment ==>
        && (s.idx > 0 ==> NamedByIndex(o, s, p, process.starts))
        && (s.idx == 0 ==> o == Value(MultiIdx(0, 0)))
        && (old(Current()) && s.idx > 0 ==> o == Value(MultiIdx(p - s.start, s.idx)))
      ensures forall s :: s in process.segments && s.start < p < s.end && s.badSegment && old(NotCached(s)) ==>
        o == Fatal
      ensures !WithinSome(process.segments, p) ==> o == Value(MultiIdx(0, 0))
    {
      hide CachesAgree, WellFormed, TableCovers, IndicesCurrent, Rebuilt, Loads, AfterLookup;
      if Found(idx[..idxOccupancy], p) {
        var e := idx[UpperBound(idx[..idxOccupancy], p)];
        IndexHit(process.State(), process.epoch, cacheEpoch, Ptr(), Tkn(), Idx(), p);
        return Value(MultiIdx(p - e.start, e.tag));
      }
      var hit := SearchMap(p, loaded);
      ScanHit(process.segments, p);
      MapNamesByIndex(process.State(), p);
      match hit {
        case Hit(start, _, _, k) => o := Value(if k > 0 then MultiIdx(p - start, k) else MultiIdx(0, 0));
        case Miss => o := Value(MultiIdx(0, 0));
        case BadHit => o := Fatal;
      }
    }

    /** function_token::detokenize. The caches do not show here either: the address is what map and index
        table say, after a rebuild if the map did not have the segment. */
    method Detokenize(t: FnToken, loaded: seq<Segment>) returns (o: Outcome<nat>)
      requires Valid() && Loads(loaded, process.segments) && (t.MultiIdx? ==> t.idx <= |process.starts|)
      modifies process`segments, this, ptr, tkn, idx
      ensures Valid() && (old(Current()) ==> Current())
      ensures t.Single? ==> o == Value(process.primaryStart + t.offset)
      ensures t.MultiIdx? ==> o == if t.idx < |process.starts| then Value(process.starts[t.idx] + t.offset)
        else if |process.starts| < process.maxSegments then Value(t.offset) else Outside
      ensures t.Multi? ==>
        && (o == Fatal <==> forall s :: s in process.segments ==> s.ident != t.ident)
        && (o == Fatal || exists s :: s in process.segments && s.ident == t.ident && o == Value(s.start + t.offset))
      ensures o == Resolve(t, process.segments, process.starts, process.maxSegments, process.primaryStart)
      ensures t.Multi? && o == Fatal ==> process.segments == Rebuilt(old(process.segments), loaded)
    {
      hide CachesAgree, WellFormed, TableCovers, IndicesCurrent, Rebuilt, Loads;
      match t {
        case Single(offset) => o := Value(process.primaryStart + offset);
        case MultiIdx(offset, k) =>
          o := LookupAtIdx(process.starts, process.maxSegments, k);
          if o.Value? {
            o := Value(o.value + offset);
          }
        case Multi(offset, ident) => o := DetokenizeHashed(offset, ident, loaded);
      }
    }

    /** function_token_ms::detokenize */
    method DetokenizeHashed(offset: nat, ident: Ident, loaded: seq<Segment>) returns (o: Outcome<nat>)
      requires Valid() && Loads(loaded, process.segments)
      modifies process`segments, this, ptr, tkn, idx
      ensures Valid() && (old(Current()) ==> Current())
      ensures o == Fatal <==> !Has(process.segments, ident)
      ensures o == Fatal || exists s :: s in process.segments && s.ident == ident && o == Value(s.start + offset)
      ensures o == Resolve(Multi(offset, ident), process.segments, process.starts, process.maxSegments,
                           process.primaryStart)
      ensures o == Fatal ==> process.segments == Rebuilt(old(process.segments), loaded)
    {
      hide CachesAgree, WellFormed, TableCovers, IndicesCurrent, Rebuilt, Loads, Find, LowerBound;
      FindFinds(process.segments, ident);
      TokenHit(process.State(), process.epoch, cacheEpoch, Ptr(), Tkn(), Idx(), ident);
      if FoundIdent(tkn[..occupancy], ident) {
        return Value(tkn[LowerBound(tkn[..occupancy], ident)].start + offset);
      }
      var found, start := SearchMapIdent(ident, loaded);
      FindFinds(process.segments, ident);
      o := if found then Value(start + offset) else Fatal;
    }
  }

  lemma StoredUnindexed(segs: seq<Segment>, ptr: seq<Range>, i: nat, e: Range, ptr': seq<Range>)
    requires i <= |ptr| && multiset(ptr') == multiset(PutAt(ptr, i, e))
    requires Unindexed(segs, [e])
    ensures Unindexed(segs, ptr) ==> Unindexed(segs, ptr')
  {
    StoredContents(ptr, i, e);
    forall f | f in ptr' ensures f == e || f in ptr {
      assert f in multiset(ptr');
      assert f in PutAt(ptr, i, e);
    }
    assert e in [e];
  }

  lemma StoredIndexed(segs: seq<Segment>, starts: seq<nat>, idx: seq<Range>, v: nat, e: Range, idx': seq<Range>)
    requires v <= |idx| && multiset(idx') == multiset(PutAt(idx, v, e)) && SortedBy(idx', StartOf)
    requires IndexTableAgrees(segs, starts, idx) && Indexed(segs, starts, e)
    ensures IndexTableAgrees(segs, starts, idx')
    ensures IndicesCurrent(segs, idx) && IndicesCurrent(segs, [e]) ==> IndicesCurrent(segs, idx')
  {
    hide Indexed;
    StoredContents(idx, v, e);
    forall f | f in idx' ensures f == e || f in idx {
      assert f in multiset(idx');
      assert f in PutAt(idx, v, e);
    }
    assert e in [e];
  }

  /** What a segment of the map is cached as. */
  lemma SegmentEntries(r: V.Rank, i: nat)
    requires WellFormed(r.segs) && TableCovers(r) && i < |r.segs|
    ensures var s := r.segs[i];
      if s.idx > 0 then Indexed(r.segs, r.starts, IndexRangeOf(s)) && IndicesCurrent(r.segs, [IndexRangeOf(s)])
      else FromMap(r.segs, RangeOf(s)) && Unindexed(r.segs, [RangeOf(s)])
  {
    var s := r.segs[i];
    assert s in r.segs;
    forall t | t in r.segs && t.start == s.start ensures t == s {
      SameStart(r.segs, s, t);
    }
    if s.idx == 0 {
      assert Caches(s, RangeOf(s));
    }
  }

  /** A hit in the index cache, for the segments that hold the pointer. */
  lemma IndexHit(r: V.Rank, epoch: nat, cacheEpoch: nat, ptr: seq<Range>, tkn: seq<Place>, idx: seq<Range>, p: nat)
    requires WellFormed(r.segs) && CachesAgree(r, epoch, cacheEpoch, ptr, tkn, idx) && Found(idx, p)
    ensures var e := idx[UpperBound(idx, p)];
      && e.start <= p && 0 < e.tag
      && (forall s :: s in r.segs && s.Encloses(p) ==>
        && s.idx > 0 && NamedByIndex(Value(MultiIdx(p - e.start, e.tag)), s, p, r.starts)
        && (IndicesCurrent(r.segs, idx) ==> s.start == e.start && s.idx == e.tag))
      && WithinSome(r.segs, p)
  {
    var e := idx[UpperBound(idx, p)];
    assert e in idx && Indexed(r.segs, r.starts, e);
    assert IndexTableAgrees(r.segs, r.starts, idx) && WithinSome(r.segs, p);
    hide CachesAgree, IndexTableAgrees, IndicesCurrent, WithinSome, UpperBound, WellFormed;
    forall s | s in r.segs && s.Encloses(p)
      ensures s.idx > 0 && s.start == e.start && 0 < e.tag < |r.starts| && r.starts[e.tag] == s.start
      ensures IndicesCurrent(r.segs, idx) ==> s.idx == e.tag
    {
      IndexHitIsTheScan(r.segs, r.starts, idx, s, p);
    }
  }

  /** A hit in the address table of the current epoch. */
  lemma PointerHit(r: V.Rank, epoch: nat, ptr: seq<Range>, tkn: seq<Place>, idx: seq<Range>, p: nat)
    requires WellFormed(r.segs) && CachesAgree(r, epoch, epoch, ptr, tkn, idx) && Found(ptr, p)
    ensures var e := ptr[UpperBound(ptr, p)];
      && e.start <= p
      && (forall s :: s in r.segs && s.Encloses(p) ==> s.start == e.start && s.ident == e.tag && s.idx == 0)
      && WithinSome(r.segs, p)
  {
    var e := ptr[UpperBound(ptr, p)];
    assert e in ptr && FromMap(r.segs, e);
    forall s | s in r.segs && s.Encloses(p)
      ensures s.start == e.start && s.ident == e.tag && s.idx == 0
    {
      PointerHitIsTheScan(r.segs, ptr, tkn, s, p);
    }
  }

  /** What a scan says of the segments that hold the pointer. */
  lemma ScanHit(segs: seq<Segment>, p: nat)
    requires WellFormed(segs)
    ensures forall s :: s in segs && s.Encloses(p) ==> MapLookup(segs, p) == HitOf(s)
    ensures MapLookup(segs, p).Hit? ==> MapLookup(segs, p).start <= p
    ensures MapLookup(segs, p) != Miss ==> WithinSome(segs, p)
  {
    forall s | s in segs && s.Encloses(p) ensures MapLookup(segs, p) == HitOf(s) {
      ScanFinds(segs, s, p);
    }
    var i := Scan(segs, p);
    if i < |segs| {
      assert segs[i] in segs;
    }
  }

  lemma TokenHit(r: V.Rank, epoch: nat, cacheEpoch: nat, ptr: seq<Range>, tkn: seq<Place>, idx: seq<Range>,
                 ident: Ident)
    requires WellFormed(r.segs) && CachesAgree(r, epoch, cacheEpoch, ptr, tkn, idx)
    ensures FoundIdent(tkn, ident) ==>
      Find(r.segs, ident) < |r.segs| && tkn[LowerBound(tkn, ident)].start == r.segs[Find(r.segs, ident)].start
  {
    TokenHitIsTheScan(r.segs, ptr, tkn, ident);
  }

  /** Marking the segment that a search found does not change what the search finds. */
  lemma MarkedIsFound(segs: seq<Segment>, ident: Ident)
    requires Find(segs, ident) < |segs|
    ensures var i := Find(segs, ident);
      Find(segs[i := segs[i].(touched := true)], ident) == i
  {
    var i := Find(segs, ident);
    var marked := segs[i := segs[i].(touched := true)];
    assert marked[i].ident == ident;
  }
}
