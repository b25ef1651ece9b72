/** One process's segment map and index table, and the loops its part of the collective steps runs. */
module Processes {
  import opened Segments
  import opened Sorting
  import V = Verification
  import opened VerifyingAll
  import opened IndexAgreement

  datatype Location = Nowhere | BadSegment | In(hash: Ident)

  /** How a rank leaves a collective step: with a fatal error, or by an access past the end of the index
      table. The original makes that access without noticing; nothing is said of what follows it. */
  datatype Finish = Returned | Threw | Ended | Overrun

  /** The index table covers every index in the map. */
  ghost predicate TableCovers(r: V.Rank) {
    && r.starts != []
    && forall s :: s in r.segs ==> s.idx < |r.starts| && (s.idx > 0 ==> r.starts[s.idx] == s.start)
  }

  class Process {
    var segments: seq<Segment>
    var starts: seq<nat>
    var epoch: nat
    /** Whether segments that not all ranks have verified may be used. */
    var enforced: bool
    /** The segment that holds the program itself. */
    const primaryStart: nat
    const primaryEnd: nat
    /** Whether internal checks are compiled in. */
    const asserting: bool
    /** The number of slots of the index table, slot 0 included. */
    const maxSegments: nat

    function State(): V.Rank
      reads this
    {
      V.Rank(segments, starts)
    }

    ghost predicate Valid()
      reads this
    {
      WellFormed(segments) && TableCovers(State()) && |starts| <= maxSegments
    }

    constructor (loaded: seq<Segment>, primary: Segment, asserts: bool, limit: nat)
      requires primary in loaded && WellFormed(loaded) && Fresh(loaded) && limit >= 1
      ensures Valid() && segments == loaded && starts == [0] && epoch == 0 && enforced == asserting == asserts
      ensures primaryStart == primary.start && primaryEnd == primary.end && maxSegments == limit
    {
      segments, starts, epoch, enforced := loaded, [0], 0, asserts;
      primaryStart, primaryEnd, asserting, maxSegments := primary.start, primary.end, asserts, limit;
    }

    /** rebuild_segment_map */
    method Rebuild(loaded: seq<Segment>)
      modifies this`segments
      ensures segments == Rebuilt(old(segments), loaded)
    {
      var olds := segments;
      var newMap := loaded;
      for i := 0 to |newMap|
        invariant |newMap| == |loaded|
        invariant forall k :: 0 <= k < i ==> newMap[k] == Inherit(loaded[k], olds)
        invariant forall k :: i <= k < |loaded| ==> newMap[k] == loaded[k]
      {
        for j := 0 to |olds|
          invariant |newMap| == |loaded|
          invariant forall k :: 0 <= k < i ==> newMap[k] == Inherit(loaded[k], olds)
          invariant forall k :: i < k < |loaded| ==> newMap[k] == loaded[k]
          invariant newMap[i] == Inherit(loaded[i], olds[..j])
        {
          var n, o := newMap[i], olds[j];
          InheritKeepsPlace(loaded[i], olds[..j]);
          assert olds[..j + 1][..j] == olds[..j];
          if n.ident == o.ident {
            newMap := newMap[i := n.(touched := n.touched || o.touched, verified := n.verified || o.verified,
                                     badVerification := n.badVerification || o.badVerification, idx := o.idx)];
          }
        }
        assert olds[..|olds|] == olds;
      }
      segments := newMap;
    }

    /** The first half of verify_segment: what this rank contributes. */
    method Locate(p: nat) returns (l: Location)
      ensures l == if V.HitsBadSegment(segments, p) then BadSegment
        else if Scan(segments, p) < |segments| then In(V.Located(segments, p)) else Nowhere
    {
      var i := 0;
      while i < |segments|
        invariant i <= |segments|
        invariant forall k :: 0 <= k < i ==> !segments[k].Encloses(p)
      {
        if segments[i].Encloses(p) {
          assert Scan(segments, p) == i;
          return if segments[i].badSegment then BadSegment else In(segments[i].ident);
        }
        i := i + 1;
      }
      l := Nowhere;
    }

    /** The second half of verify_segment. Its test of the limit comes one too late: with a full table
        the store goes past the end, and the fatal error would come at the step after. */
    method FinishSegment(hash: Ident, reduced: Ident) returns (done: Finish)
      requires starts != []
      modifies this
      ensures done == Ended <==> V.AddsIndex(old(State()), hash, reduced) && |old(starts)| > maxSegments
      ensures done == Overrun <==> V.AddsIndex(old(State()), hash, reduced) && |old(starts)| == maxSegments
      ensures done == Returned || done == Threw ==>
        && State() == V.FinishSegment(old(State()), hash, reduced)
        && (done == Returned <==> reduced != NO_IDENT && Has(old(segments), hash))
        && epoch == (if starts == old(starts) then old(epoch) else old(epoch) + 1)
        && (|old(starts)| <= maxSegments ==> |starts| <= maxSegments)
      ensures enforced == old(enforced)
    {
      var it := 0;
      while it < |segments| && segments[it].ident != hash
        invariant it <= |segments|
        invariant forall k :: 0 <= k < it ==> segments[k].ident != hash
      {
        it := it + 1;
      }
      FindFinds(segments, hash);
      assert Find(segments, hash) == it;
      if it == |segments| {
        return Threw;
      }
      if reduced == NO_IDENT {
        segments := segments[it := segments[it].SetBadVerification()];
        return Threw;
      }
      if segments[it].verified {
        return Returned;
      }
      epoch := epoch + 1;
      segments := segments[it := segments[it].SetVerified()];
      var idx := |starts|;
      if idx > maxSegments {
        return Ended;
      }
      if idx == maxSegments {
        return Overrun;
      }
      segments := segments[it := segments[it].(idx := idx)];
      starts := starts + [segments[it].start];
      assert |starts| != |old(starts)|;
      done := Returned;
    }

    /** This rank's checklist. */
    method Check(hashes: seq<Ident>) returns (checks: seq<bool>)
      ensures |checks| == |hashes|
      ensures forall i :: 0 <= i < |hashes| ==> checks[i] == V.Holds(segments, hashes[i])
    {
      checks := [];
      for i := 0 to |hashes|
        invariant |checks| == i
        invariant forall k :: 0 <= k < i ==> checks[k] == V.Holds(segments, hashes[k])
      {
        var found := false;
        var j := 0;
        while j < |segments| && !found
          invariant j <= |segments|
          invariant found ==> j < |segments| && segments[j].ident == hashes[i]
          invariant !found ==> forall k :: 0 <= k < j ==> segments[k].ident != hashes[i]
          decreases |segments| - j, !found
        {
          if hashes[i] == segments[j].ident {
            found := true;
          } else {
            j := j + 1;
          }
        }
        checks := checks + [found];
      }
    }

    /** The program's own segment is verified, or nobody checks. */
    ghost predicate PrimaryPasses(segs: seq<Segment>) {
      asserting ==> forall k :: 0 <= k < |segs| && segs[k].start == primaryStart ==> segs[k].verified
    }

    /** Goes through the reduced checklist, then marks what neither this nor an earlier step judged. */
    method Judge(hashes: seq<Ident>, checks: seq<bool>) returns (ok: bool)
      requires |hashes| == |checks| && WellFormed(segments) && NoRepeats(hashes)
      modifies this`segments
      ensures ok <==> PrimaryPasses(V.JudgedMap(old(segments), hashes, checks))
      ensures ok ==> segments == V.JudgedMap(old(segments), hashes, checks)
    {
      ghost var olds := segments;
      List(hashes, checks);
      ghost var listed := segments;
      for j := 0 to |segments|
        invariant |segments| == |olds|
        invariant forall k :: 0 <= k < j ==> segments[k] == V.Judged(olds[k], hashes, checks)
        invariant forall k :: j <= k < |olds| ==> segments[k] == listed[k]
        invariant asserting ==> forall k :: 0 <= k < j && segments[k].start == primaryStart ==> segments[k].verified
      {
        assert segments[j] == ListedSegment(olds[j], hashes, checks, |hashes|);
        if !segments[j].verified && !segments[j].badVerification {
          segments := segments[j := segments[j].SetBadVerification()];
        }
        if asserting && segments[j].start == primaryStart && !segments[j].verified {
          assert V.JudgedMap(olds, hashes, checks)[j] == segments[j];
          return false;
        }
      }
      ok := true;
    }

    /** Goes through the reduced checklist. */
    method List(hashes: seq<Ident>, checks: seq<bool>)
      requires |hashes| == |checks| && WellFormed(segments) && NoRepeats(hashes)
      modifies this`segments
      ensures ListedSoFar(old(segments), segments, hashes, checks, |hashes|)
    {
      hide WellFormed, NoRepeats;
      ghost var olds := segments;
      for i := 0 to |hashes|
        invariant ListedSoFar(olds, segments, hashes, checks, i)
      {
        var j := 0;
        while j < |segments| && segments[j].ident != hashes[i]
          invariant j <= |segments|
          invariant forall k :: 0 <= k < j ==> segments[k].ident != hashes[i]
        {
          j := j + 1;
        }
        ghost var before := segments;
        if j < |segments| {
          segments := segments[j := if checks[i] then segments[j].SetVerified() else segments[j].SetBadVerification()];
        }
        JudgeOne(olds, before, segments, hashes, checks, i, j);
      }
    }

    /** Whether the start is in the table: in a used slot, or else in the one after, which is zero if the
        table has it. */
    method InTable(start: nat) returns (inside: bool, found: bool)
      requires starts != [] && |starts| <= maxSegments && start > 0
      ensures inside <==> |starts| < maxSegments || start in starts[1..]
      ensures inside ==> (found <==> start in starts[1..])
    {
      InUsedSlots(starts, start);
      inside, found := true, false;
      var i := 1;
      while i <= |starts| && !found
        invariant 1 <= i <= |starts| + 1 && (i == |starts| + 1 ==> |starts| < maxSegments)
        invariant found <==> exists k :: 1 <= k < i && k < |starts| && starts[k] == start
      {
        if i == maxSegments {
          return false, false;
        }
        var slot := if i < |starts| then starts[i] else 0;
        found := start == slot;
        i := i + 1;
      }
    }

    /** The verified segments whose start is not in the table yet, in the order of their hashes. Looking
        for one in a full table reads past its end. */
    method CollectNew() returns (inside: bool, news: seq<Segment>)
      requires WellFormed(segments) && starts != [] && |starts| <= maxSegments
      ensures inside <==> |starts| < maxSegments || V.NewSegments(segments, starts) == []
      ensures inside ==> news == Ordered(segments, starts)
    {
      inside, news := true, [];
      for j := 0 to |segments|
        invariant inside && news == V.NewSegments(segments[..j], starts)
        invariant |starts| == maxSegments ==> news == []
      {
        assert segments[..j + 1][..j] == segments[..j];
        if segments[j].verified {
          var found;
          inside, found := InTable(segments[j].start);
          if !inside {
            NewSegmentsContents(segments, starts);
            assert segments[j] in segments;
            return;
          }
          if !found {
            news := news + [segments[j]];
          }
        }
      }
      assert segments[..|segments|] == segments;
      news := SortedWith(news, V.SegmentIdent);
    }

    /** Numbers the new segments from the next free index on. */
    method Number(news: seq<Segment>)
      requires NoRepeats(V.Starts(news))
      modifies this`segments, this`starts
      ensures starts == old(starts) + V.Starts(news)
      ensures segments == V.NumberedMap(old(segments), V.Starts(news), |old(starts)|)
    {
      ghost var olds, base, ns := segments, |starts|, V.Starts(news);
      for i := 0 to |news|
        invariant starts == old(starts) + ns[..i]
        invariant |segments| == |olds|
        invariant forall k :: 0 <= k < |olds| ==> segments[k] == NumberedSoFar(olds[k], ns, base, i)
      {
        var idx := |starts|;
        starts := starts + [news[i].start];
        NumberOne(news[i].start, idx, olds, ns, base, i);
      }
      assert ns[..|news|] == ns;
    }

    /** Gives the index to what starts there. */
    method NumberOne(start: nat, idx: nat, ghost olds: seq<Segment>, ghost ns: seq<nat>, ghost base: nat, ghost i: nat)
      requires NoRepeats(ns) && i < |ns| && start == ns[i] && idx == base + i && |segments| == |olds|
      requires forall k :: 0 <= k < |olds| ==> segments[k] == NumberedSoFar(olds[k], ns, base, i)
      modifies this`segments
      ensures |segments| == |olds|
      ensures forall k :: 0 <= k < |olds| ==> segments[k] == NumberedSoFar(olds[k], ns, base, i + 1)
    {
      for j := 0 to |segments|
        invariant |segments| == |olds|
        invariant forall k :: 0 <= k < j ==> segments[k] == NumberedSoFar(olds[k], ns, base, i + 1)
        invariant forall k :: j <= k < |olds| ==> segments[k] == NumberedSoFar(olds[k], ns, base, i)
      {
        OnlyIndex(ns, i, olds[j].start);
        if start == segments[j].start {
          segments := segments[j := segments[j].(idx := idx)];
        }
      }
    }

    /** verify_all can finish on this rank: its own segment passes and the indices suffice. */
    ghost predicate CanFinishAll(r: V.Rank, hashes: seq<Ident>, checks: seq<bool>)
      requires |hashes| == |checks| && r.starts != []
    {
      PrimaryPasses(V.JudgedMap(r.segs, hashes, checks)) && |V.FinishAll(r, hashes, checks).starts| <= maxSegments
    }

    /** The step needs an index, and the table is full. */
    ghost predicate OverrunsAll(r: V.Rank, hashes: seq<Ident>, checks: seq<bool>)
      requires |hashes| == |checks| && r.starts != []
    {
      && PrimaryPasses(V.JudgedMap(r.segs, hashes, checks))
      && |r.starts| == maxSegments < |V.FinishAll(r, hashes, checks).starts|
    }

    /** In terms of the segments before they are judged. */
    lemma PrimaryJudged(segs: seq<Segment>, hashes: seq<Ident>, checks: seq<bool>)
      requires |hashes| == |checks|
      ensures PrimaryPasses(V.JudgedMap(segs, hashes, checks)) <==> asserting ==>
        forall s :: s in segs && s.start == primaryStart ==> V.Judged(s, hashes, checks).verified
    {
      hide V.Judged;
      var judged := V.JudgedMap(segs, hashes, checks);
      JudgedKeepsPlaces(segs, hashes, checks);
      forall k | 0 <= k < |segs| ensures judged[k] == V.Judged(segs[k], hashes, checks) && segs[k] in segs {
      }
    }

    /** The second half of verify_all. It ends the program when checks are compiled in and the program's own segment
        is judged unverified, or when the indices do not suffice and the table is not read past its end. */
    method FinishAll(hashes: seq<Ident>, checks: seq<bool>) returns (done: Finish)
      requires |hashes| == |checks| && NoRepeats(hashes) && Valid()
      modifies this
      ensures done != Threw
      ensures done == Returned <==> CanFinishAll(old(State()), hashes, checks)
      ensures done == Overrun <==> OverrunsAll(old(State()), hashes, checks)
      ensures done == Ended <==>
        || (asserting &&
            exists s :: s in old(segments) && s.start == primaryStart && !V.Judged(s, hashes, checks).verified)
        || |old(starts)| < maxSegments < |V.FinishAll(old(State()), hashes, checks).starts|
      ensures done == Returned ==>
        && State() == V.FinishAll(old(State()), hashes, checks) && |starts| <= maxSegments
        && epoch == if starts == old(starts) then old(epoch) else old(epoch) + 1
      ensures enforced == old(enforced)
    {
      ghost var judged := V.JudgedMap(segments, hashes, checks);
      JudgedKeepsPlaces(segments, hashes, checks);
      SamePlacesWellFormed(segments, judged);
      PrimaryJudged(segments, hashes, checks);
      var ok := Judge(hashes, checks);
      if !ok {
        return Ended;
      }
      var inside, news := CollectNew();
      assert |V.FinishAll(old(State()), hashes, checks).starts| == |starts| + |V.NewSegments(judged, starts)|;
      if !inside {
        return Overrun;
      }
      OrderedStarts(judged, starts);
      if |starts| + |news| > maxSegments {
        return Ended;
      }
      Number(news);
      if |news| > 0 {
        epoch := epoch + 1;
      }
      assert |starts| == |old(starts)| + |news|;
      done := Returned;
    }
  }

  // ---- What the loops of verify_all have done so far ----

  function ListedSegment(s: Segment, hashes: seq<Ident>, checks: seq<bool>, i: nat): Segment
    requires |hashes| == |checks|
  {
    var k := V.IndexOf(hashes, s.ident);
    if k < |hashes| && k < i then if checks[k] then s.SetVerified() else s.SetBadVerification() else s
  }

  ghost predicate ListedSoFar(olds: seq<Segment>, segs: seq<Segment>, hashes: seq<Ident>, checks: seq<bool>, i: nat)
    requires |hashes| == |checks|
  {
    |segs| == |olds| && forall k :: 0 <= k < |olds| ==> segs[k] == ListedSegment(olds[k], hashes, checks, i)
  }

  lemma OnlyIndex(hashes: seq<nat>, i: nat, x: nat)
    requires NoRepeats(hashes) && i < |hashes|
    ensures V.IndexOf(hashes, x) == i <==> hashes[i] == x
  {
    var k := V.IndexOf(hashes, x);
    assert hashes[i] == x ==> k <= i;
  }

  lemma JudgeOne(olds: seq<Segment>, before: seq<Segment>, after: seq<Segment>,
                 hashes: seq<Ident>, checks: seq<bool>, i: nat, j: nat)
    requires |hashes| == |checks| && NoRepeats(hashes) && i < |hashes| && WellFormed(olds)
    requires ListedSoFar(olds, before, hashes, checks, i)
    requires j <= |before| && forall k :: 0 <= k < j ==> before[k].ident != hashes[i]
    requires j < |before| ==> before[j].ident == hashes[i]
    requires after == if j == |before| then before
      else before[j := if checks[i] then before[j].SetVerified() else before[j].SetBadVerification()]
    ensures ListedSoFar(olds, after, hashes, checks, i + 1)
  {
    forall k | 0 <= k < |olds| ensures after[k] == ListedSegment(olds[k], hashes, checks, i + 1) {
      OnlyIndex(hashes, i, olds[k].ident);
      if j < k {
        assert Apart(olds[j], olds[k]);
      }
    }
  }

  lemma InUsedSlots(starts: seq<nat>, start: nat)
    requires starts != []
    ensures start in starts[1..] <==> exists k :: 1 <= k < |starts| && starts[k] == start
  {
    if start in starts[1..] {
      var k :| 0 <= k < |starts| - 1 && starts[1..][k] == start;
      assert starts[k + 1] == start;
    }
    if k :| 1 <= k < |starts| && starts[k] == start {
      assert starts[1..][k - 1] == start;
    }
  }

  function NumberedSoFar(s: Segment, ns: seq<nat>, base: nat, i: nat): Segment {
    var k := V.IndexOf(ns, s.start);
    if k < |ns| && k < i then s.(idx := base + k) else s
  }

  lemma JudgedKeepsPlaces(segs: seq<Segment>, hashes: seq<Ident>, checks: seq<bool>)
    requires |hashes| == |checks|
    ensures SamePlaces(segs, V.JudgedMap(segs, hashes, checks))
  {
  }

  lemma OrderedStarts(segs: seq<Segment>, starts: seq<nat>)
    requires WellFormed(segs) && starts != []
    ensures NoRepeats(V.Starts(Ordered(segs, starts)))
  {
    hide Ordered, WellFormed;
    var ordered := Ordered(segs, starts);
    OrderedAscends(segs, starts);
    forall i, j | 0 <= i < j < |ordered| ensures ordered[i].start != ordered[j].start {
      assert V.Idents(ordered)[i] < V.Idents(ordered)[j];
      assert ordered[i] in ordered && ordered[j] in ordered;
      if ordered[i].start == ordered[j].start {
        ProperIntervals(segs, ordered[i]);
        ProperIntervals(segs, ordered[j]);
        SameSegment(segs, ordered[i], ordered[j]);
      }
    }
  }

  lemma ProperIntervals(segs: seq<Segment>, s: Segment)
    requires WellFormed(segs) && s in segs
    ensures 0 < s.start < s.end
  {
  }

  /** Growth leaves every index of the map in the table. */
  lemma GrowthKeepsTable(r: V.Rank, news: seq<Segment>)
    requires TableCovers(r) && WellFormed(news) && Grown(r.segs, news)
    ensures TableCovers(V.Rank(news, r.starts))
  {
    forall n | n in news ensures n.idx < |r.starts| && (n.idx > 0 ==> r.starts[n.idx] == n.start) {
      GrownFrom(r.segs, news, n);
    }
  }
}
