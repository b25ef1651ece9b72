/** The verification steps leave the caches of every thread true, although they do not touch them. */
module CachesInRuns {
  import opened Segments
  import opened CacheTables
  import opened Sorting
  import opened Processes
  import opened SegmentCaches
  import opened VerifyingAll
  import V = Verification

  /** The same places, more of the index table in use, no index taken away, and no new one unless the
      table grew. */
  ghost predicate Moved(r: V.Rank, r': V.Rank) {
    && SamePlaces(r.segs, r'.segs) && r.starts <= r'.starts
    && (forall i :: 0 <= i < |r.segs| && r.segs[i].idx > 0 ==> r'.segs[i].idx > 0)
    && (r'.starts == r.starts ==> forall i :: 0 <= i < |r.segs| ==> r'.segs[i].idx == r.segs[i].idx)
  }

  /** The epoch a process announces. */
  function EpochAfter(r: V.Rank, r': V.Rank, epoch: nat): nat {
    if r'.starts == r.starts then epoch else epoch + 1
  }

  lemma MovedKeepsCaches(r: V.Rank, r': V.Rank, epoch: nat, cacheEpoch: nat,
                         ptr: seq<Range>, tkn: seq<Place>, idx: seq<Range>)
    requires Moved(r, r') && CachesAgree(r, epoch, cacheEpoch, ptr, tkn, idx)
    ensures CachesAgree(r', EpochAfter(r, r', epoch), cacheEpoch, ptr, tkn, idx)
  {
    hide SortedBy, Places;
    forall e | e in ptr ensures FromMap(r'.segs, e) {
      assert FromMap(r.segs, e);
      var s :| s in r.segs && Caches(s, e);
      var i :| 0 <= i < |r.segs| && r.segs[i] == s;
      assert r'.segs[i] in r'.segs && Caches(r'.segs[i], e);
    }
    forall e | e in idx ensures Indexed(r'.segs, r'.starts, e) {
      assert Indexed(r.segs, r.starts, e);
      var s :| s in r.segs && s.start == e.start && s.end == e.end && s.idx > 0;
      var i :| 0 <= i < |r.segs| && r.segs[i] == s;
      assert r'.segs[i] in r'.segs;
    }
    if cacheEpoch == EpochAfter(r, r', epoch) {
      forall e, s | e in ptr && s in r'.segs && s.start == e.start ensures s.idx == 0 {
        var i :| 0 <= i < |r'.segs| && r'.segs[i] == s;
        assert r.segs[i] in r.segs;
      }
    }
  }

  /** The step gives a segment that has an index another one. */
  ghost predicate Renumbers(r: V.Rank, hash: Ident, reduced: Ident) {
    var i := Find(r.segs, hash);
    i < |r.segs| && reduced != NO_IDENT && !r.segs[i].verified && r.segs[i].idx > 0
  }

  lemma FinishSegmentMoves(r: V.Rank, hash: Ident, reduced: Ident)
    requires WellFormed(r.segs) && TableCovers(r)
    ensures Moved(r, V.FinishSegment(r, hash, reduced)) && TableCovers(V.FinishSegment(r, hash, reduced))
  {
    hide WellFormed;
    var f, i := V.FinishSegment(r, hash, reduced), Find(r.segs, hash);
    assert f.starts == r.starts || |f.starts| == |r.starts| + 1;
    forall s | s in f.segs ensures s.idx < |f.starts| && (s.idx > 0 ==> f.starts[s.idx] == s.start) {
      var k :| 0 <= k < |f.segs| && f.segs[k] == s;
      assert r.segs[k] in r.segs;
    }
  }

  lemma IndicesStayCurrent(r: V.Rank, hash: Ident, reduced: Ident, idx: seq<Range>)
    requires IndicesCurrent(r.segs, idx) && !Renumbers(r, hash, reduced) && forall e :: e in idx ==> e.tag > 0
    ensures IndicesCurrent(V.FinishSegment(r, hash, reduced).segs, idx)
  {
    var f := V.FinishSegment(r, hash, reduced);
    forall e, s | e in idx && s in f.segs && s.start == e.start ensures s.idx == e.tag {
      var k :| 0 <= k < |f.segs| && f.segs[k] == s;
      assert r.segs[k] in r.segs && r.segs[k].start == s.start;
    }
  }

  /** verify_segment keeps the caches true, and their indices those of the map unless it renumbers a
      segment whose flag an earlier failure took away. */
  lemma FinishSegmentKeepsCaches(r: V.Rank, hash: Ident, reduced: Ident, epoch: nat, cacheEpoch: nat,
                                 ptr: seq<Range>, tkn: seq<Place>, idx: seq<Range>)
    requires WellFormed(r.segs) && TableCovers(r) && CachesAgree(r, epoch, cacheEpoch, ptr, tkn, idx)
    ensures var f := V.FinishSegment(r, hash, reduced);
      && WellFormed(f.segs) && TableCovers(f)
      && CachesAgree(f, EpochAfter(r, f, epoch), cacheEpoch, ptr, tkn, idx)
      && (IndicesCurrent(r.segs, idx) && !Renumbers(r, hash, reduced) ==> IndicesCurrent(f.segs, idx))
  {
    var f := V.FinishSegment(r, hash, reduced);
    FinishSegmentMoves(r, hash, reduced);
    SamePlacesWellFormed(r.segs, f.segs);
    MovedKeepsCaches(r, f, epoch, cacheEpoch, ptr, tkn, idx);
    hide CachesAgree, WellFormed, TableCovers, Moved;
    if IndicesCurrent(r.segs, idx) && !Renumbers(r, hash, reduced) {
      CurrentEntriesHaveIndex(r, epoch, cacheEpoch, ptr, tkn, idx);
      IndicesStayCurrent(r, hash, reduced, idx);
    }
  }

  lemma CurrentEntriesHaveIndex(r: V.Rank, epoch: nat, cacheEpoch: nat, ptr: seq<Range>, tkn: seq<Place>,
                                idx: seq<Range>)
    requires CachesAgree(r, epoch, cacheEpoch, ptr, tkn, idx)
    ensures forall e :: e in idx ==> e.tag > 0
  {
    forall e | e in idx ensures e.tag > 0 {
      assert Indexed(r.segs, r.starts, e);
    }
  }

  /** A segment with an index is in the table, so it is not numbered again. */
  lemma IndexedIsNotNew(r: V.Rank, judged: seq<Segment>, ordered: seq<Segment>, i: nat)
    requires TableCovers(r) && SamePlaces(r.segs, judged) && i < |r.segs|
    requires forall s :: s in ordered ==> s in judged && V.NeedsIndex(s, r.starts)
    ensures V.IndexOf(V.Starts(ordered), judged[i].start) < |ordered| ==> r.segs[i].idx == 0
  {
    var k := V.IndexOf(V.Starts(ordered), judged[i].start);
    assert r.segs[i] in r.segs;
    if k < |ordered| {
      assert ordered[k] in ordered;
      InUsedSlots(r.starts, judged[i].start);
    }
  }

  /** A segment after it may have been numbered. */
  lemma NumberedInTable(r: V.Rank, judged: seq<Segment>, ordered: seq<Segment>, i: nat)
    requires TableCovers(r) && SamePlaces(r.segs, judged) && i < |r.segs| && judged[i].idx == r.segs[i].idx
    requires forall s :: s in ordered ==> s in judged && V.NeedsIndex(s, r.starts)
    ensures var s, starts := V.Numbered(judged[i], V.Starts(ordered), |r.starts|), r.starts + V.Starts(ordered);
      && s.SamePlace(r.segs[i])
      && s.idx < |starts| && (s.idx > 0 ==> starts[s.idx] == s.start)
      && (r.segs[i].idx > 0 ==> s.idx == r.segs[i].idx)
      && (ordered == [] ==> s.idx == r.segs[i].idx)
  {
    hide V.NeedsIndex;
    assert r.segs[i] in r.segs;
    IndexedIsNotNew(r, judged, ordered, i);
  }

  lemma FinishAllMoves(r: V.Rank, hashes: seq<Ident>, checks: seq<bool>)
    requires |hashes| == |checks| && WellFormed(r.segs) && TableCovers(r)
    ensures var f := V.FinishAll(r, hashes, checks);
      && Moved(r, f) && TableCovers(f)
      && forall i :: 0 <= i < |r.segs| ==> r.segs[i].idx > 0 ==> f.segs[i].idx == r.segs[i].idx
  {
    var judged := V.JudgedMap(r.segs, hashes, checks);
    var ordered, f := Ordered(judged, r.starts), V.FinishAll(r, hashes, checks);
    assert f.starts == r.starts + V.Starts(ordered);
    assert f.segs == V.NumberedMap(judged, V.Starts(ordered), |r.starts|);
    hide WellFormed, Ordered, V.Numbered, V.FinishAll;
    JudgedKeepsPlaces(r.segs, hashes, checks);
    SamePlacesWellFormed(r.segs, judged);
    OrderedAscends(judged, r.starts);
    forall i | 0 <= i < |r.segs|
      ensures var s := f.segs[i];
        && s.SamePlace(r.segs[i])
        && s.idx < |f.starts| && (s.idx > 0 ==> f.starts[s.idx] == s.start)
        && (r.segs[i].idx > 0 ==> s.idx == r.segs[i].idx)
        && (ordered == [] ==> s.idx == r.segs[i].idx)
    {
      NumberedInTable(r, judged, ordered, i);
    }
    assert |f.starts| == |r.starts| + |ordered|;
  }

  /** verify_all keeps the caches true and never gives a segment a second index. */
  lemma FinishAllKeepsCaches(r: V.Rank, hashes: seq<Ident>, checks: seq<bool>, epoch: nat, cacheEpoch: nat,
                             ptr: seq<Range>, tkn: seq<Place>, idx: seq<Range>)
    requires |hashes| == |checks|
    requires WellFormed(r.segs) && TableCovers(r) && CachesAgree(r, epoch, cacheEpoch, ptr, tkn, idx)
    ensures var f := V.FinishAll(r, hashes, checks);
      && WellFormed(f.segs) && TableCovers(f)
      && CachesAgree(f, EpochAfter(r, f, epoch), cacheEpoch, ptr, tkn, idx)
      && (IndicesCurrent(r.segs, idx) ==> IndicesCurrent(f.segs, idx))
  {
    hide V.FinishAll, WellFormed;
    var f := V.FinishAll(r, hashes, checks);
    FinishAllMoves(r, hashes, checks);
    SamePlacesWellFormed(r.segs, f.segs);
    MovedKeepsCaches(r, f, epoch, cacheEpoch, ptr, tkn, idx);
    if IndicesCurrent(r.segs, idx) {
      CurrentEntriesHaveIndex(r, epoch, cacheEpoch, ptr, tkn, idx);
      forall e, s | e in idx && s in f.segs && s.start == e.start ensures s.idx == e.tag {
        var k :| 0 <= k < |f.segs| && f.segs[k] == s;
        assert r.segs[k] in r.segs;
        assert r.segs[k].idx == e.tag > 0;
      }
    }
  }
}
