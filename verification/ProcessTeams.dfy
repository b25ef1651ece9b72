/** The collective steps run over process objects: one object a rank, a reduction in the middle. */
module ProcessTeams {
  import opened Segments
  import opened Sorting
  import opened Processes
  import V = Verification
  import opened IndexAgreement
  import opened IndexRuns
  import opened VerifyingAll
  import opened RecordedOutcomes

  function States(team: seq<Process>): (t: V.Team)
    reads team
    ensures |t| == |team|
    ensures forall r :: 0 <= r < |team| ==> t[r] == team[r].State()
  {
    seq(|team|, r requires 0 <= r < |team| reads team => team[r].State())
  }

  ghost predicate Distinct(team: seq<Process>) {
    forall q, r :: 0 <= q < r < |team| ==> team[q] != team[r]
  }

  /** Every rank rebuilds its map. */
  method RebuildAll(team: seq<Process>, loaded: seq<seq<Segment>>)
    requires Distinct(team) && team != [] && |loaded| == |team|
    modifies team
    ensures States(team) == V.RebuiltTeam(old(States(team)), loaded)
    ensures forall r :: 0 <= r < |team| ==> team[r].epoch == old(team[r].epoch)
  {
    for r := 0 to |team|
      invariant forall k :: 0 <= k < r ==> team[k].State() == V.RebuiltTeam(old(States(team)), loaded)[k]
      invariant forall k :: r <= k < |team| ==> team[k].State() == old(team[k].State())
      invariant forall k :: 0 <= k < |team| ==> team[k].epoch == old(team[k].epoch)
    {
      team[r].Rebuild(loaded[r]);
    }
  }

  /** Every rank looks its pointer up. */
  method LocateAll(team: seq<Process>, ps: seq<nat>) returns (aborted: bool, hashes: seq<Ident>)
    requires team != [] && |ps| == |team|
    ensures aborted <==> exists r :: 0 <= r < |team| && V.HitsBadSegment(States(team)[r].segs, ps[r])
    ensures !aborted ==> hashes == V.Contributions(States(team), ps)
  {
    aborted, hashes := false, [];
    for r := 0 to |team|
      invariant |hashes| == r
      invariant forall k :: 0 <= k < r ==> hashes[k] == V.Located(team[k].segments, ps[k])
      invariant forall k :: 0 <= k < r ==> !V.HitsBadSegment(States(team)[k].segs, ps[k])
    {
      var l := team[r].Locate(ps[r]);
      if l == BadSegment {
        assert V.HitsBadSegment(States(team)[r].segs, ps[r]);
        return true, [];
      }
      hashes := hashes + [if l.In? then l.hash else NO_IDENT];
    }
  }

  /** How a collective call ends: on all ranks, with the program, or with an access past some rank's table. */
  datatype Ending = AllDone | ProgramEnds | PastTable

  /** The step needs one more index on a rank whose table is full. */
  ghost predicate OverrunOn(team: seq<Process>, t: V.Team, hashes: seq<Ident>, reduced: Ident, r: nat)
    requires r < |team| == |t| == |hashes|
  {
    V.AddsIndex(t[r], hashes[r], reduced) && |t[r].starts| == team[r].maxSegments
  }

  ghost predicate HaveRoom(team: seq<Process>)
    reads team
  {
    forall r :: 0 <= r < |team| ==> team[r].starts != [] && |team[r].starts| <= team[r].maxSegments
  }

  /** Every rank records the outcome, or throws. */
  method FinishSegments(team: seq<Process>, hashes: seq<Ident>, reduced: Ident) returns (past: bool, ok: seq<bool>)
    requires Distinct(team) && |hashes| == |team| && HaveRoom(team)
    modifies team
    ensures past <==> exists r :: 0 <= r < |team| && OverrunOn(team, old(States(team)), hashes, reduced, r)
    ensures !past ==> HaveRoom(team) && forall r :: 0 <= r < |team| ==>
      team[r].State() == V.FinishSegment(old(team[r].State()), hashes[r], reduced)
    ensures !past ==> |ok| == |team| && forall r :: 0 <= r < |team| ==>
      (ok[r] <==> reduced != NO_IDENT && Has(old(team[r].segments), hashes[r]))
  {
    hide V.FinishSegment, V.AddsIndex, Has;
    past, ok := false, [];
    for r := 0 to |team|
      invariant |ok| == r
      invariant past <==> exists k :: 0 <= k < r && OverrunOn(team, old(States(team)), hashes, reduced, k)
      invariant !past ==> forall k :: 0 <= k < r ==>
        (ok[k] <==> reduced != NO_IDENT && Has(old(team[k].segments), hashes[k]))
      invariant !past ==> forall k :: 0 <= k < r ==>
        && team[k].State() == V.FinishSegment(old(team[k].State()), hashes[k], reduced)
        && team[k].starts != [] && |team[k].starts| <= team[k].maxSegments
      invariant forall k :: r <= k < |team| ==> team[k].State() == old(team[k].State())
    {
      StartsStay(team[r].State(), hashes[r], reduced);
      var done := team[r].FinishSegment(hashes[r], reduced);
      if done == Overrun {
        assert OverrunOn(team, old(States(team)), hashes, reduced, r);
        past := true;
      }
      ok := ok + [done == Returned];
    }
  }

  lemma StartsStay(r: V.Rank, hash: Ident, reduced: Ident)
    requires r.starts != []
    ensures V.FinishSegment(r, hash, reduced).starts != []
  {
  }

  /** The call needs one more index than some rank has slots for. */
  ghost predicate Overruns(team: seq<Process>, was: V.Team, e: Event)
    requires e.OneSegment? && Lawful(was, e) && |team| == |was|
  {
    var hashes := V.Contributions(EarlyTeam(was, e), e.ps);
    exists r :: 0 <= r < |team| && OverrunOn(team, LateTeam(was, e), hashes, V.Unanimous(hashes), r)
  }

  /** The phases of verify_segment: rebuild, locate, reduce, rebuild again and finish. */
  method LocateAndFinish(team: seq<Process>, early: seq<seq<Segment>>, late: seq<seq<Segment>>, ps: seq<nat>)
    returns (ending: Ending, ok: seq<bool>)
    requires Distinct(team) && Lawful(States(team), OneSegment(early, late, ps)) && HaveRoom(team)
    modifies team
    ensures ending == ProgramEnds <==> Step(old(States(team)), OneSegment(early, late, ps)) == Aborted
    ensures ending == PastTable <==>
      && Step(old(States(team)), OneSegment(early, late, ps)) != Aborted
      && Overruns(team, old(States(team)), OneSegment(early, late, ps))
    ensures ending == AllDone ==>
      && Step(old(States(team)), OneSegment(early, late, ps)) == Running(States(team)) && HaveRoom(team)
      && |ok| == |team| && forall r :: 0 <= r < |team| ==>
        (ok[r] <==> V.Succeeds(EarlyTeam(old(States(team)), OneSegment(early, late, ps)), ps))
  {
    hide Rebuilt, V.FinishSegment, V.Located, Has, V.HitsBadSegment, Loads, V.AddsIndex;
    ghost var was, e := States(team), OneSegment(early, late, ps);
    RebuildAll(team, early);
    assert States(team) == EarlyTeam(was, e);
    var aborted, hashes := LocateAll(team, ps);
    if aborted {
      return ProgramEnds, [];
    }
    var reduced := V.Unanimous(hashes);
    RebuildAll(team, late);
    assert States(team) == LateTeam(was, e);
    var past;
    past, ok := FinishSegments(team, hashes, reduced);
    if past {
      return PastTable, [];
    }
    ending := AllDone;
    assert States(team) == V.VerifySegment(EarlyTeam(was, e), LateTeam(was, e), ps);
    LateHasEarly(was, e);
    forall r | 0 <= r < |team| ensures ok[r] <==> V.Succeeds(EarlyTeam(was, e), ps) {
      if V.Succeeds(EarlyTeam(was, e), ps) {
        CommonIsEverywhere(EarlyTeam(was, e), LateTeam(was, e), ps, r);
      }
    }
  }

  /** verify_segment. The program ends when a rank's pointer lies in a segment that cannot be relocated, verified
      or not; otherwise the call returns on all ranks, when all point into a segment of one hash, or throws on
      all, or a store goes past a full table. */
  method VerifySegment(team: seq<Process>, early: seq<seq<Segment>>, late: seq<seq<Segment>>, ps: seq<nat>)
    returns (ending: Ending, ok: seq<bool>)
    requires Distinct(team) && Lawful(States(team), OneSegment(early, late, ps)) && HaveRoom(team)
    modifies team
    ensures ending == ProgramEnds <==> Step(old(States(team)), OneSegment(early, late, ps)) == Aborted
    ensures ending == ProgramEnds <==> exists r, s ::
      && 0 <= r < |team| && s in EarlyTeam(old(States(team)), OneSegment(early, late, ps))[r].segs
      && s.start < ps[r] < s.end && s.badSegment
    ensures ending == PastTable <==>
      && Step(old(States(team)), OneSegment(early, late, ps)) != Aborted
      && Overruns(team, old(States(team)), OneSegment(early, late, ps))
    ensures ending == AllDone ==>
      && Step(old(States(team)), OneSegment(early, late, ps)) == Running(States(team)) && HaveRoom(team)
      && |ok| == |team| && forall r :: 0 <= r < |team| ==>
        (ok[r] <==> exists ident :: AllPointInto(EarlyTeam(old(States(team)), OneSegment(early, late, ps)), ps, ident))
  {
    hide Step, HaveRoom, Overruns, AllPointInto, V.Succeeds, V.RebuiltTeam, Loads;
    ghost var was, e := States(team), OneSegment(early, late, ps);
    ending, ok := LocateAndFinish(team, early, late, ps);
    AbortsOnBadSegment(was, e);
    SuccessMeans(was, e);
  }

  lemma SuccessMeans(team: V.Team, e: Event)
    requires e.OneSegment? && Lawful(team, e)
    ensures V.Succeeds(EarlyTeam(team, e), e.ps) <==> exists ident :: AllPointInto(EarlyTeam(team, e), e.ps, ident)
  {
    forall r | 0 <= r < |team| ensures WellFormed(EarlyTeam(team, e)[r].segs) {
      EarlyIsWellFormed(team, e, r);
    }
    SucceedsMeans(EarlyTeam(team, e), e.ps);
  }

  lemma LateHasEarly(team: V.Team, e: Event)
    requires (e.OneSegment? || e.AllSegments?) && Lawful(team, e)
    ensures V.GrownTeam(EarlyTeam(team, e), LateTeam(team, e))
  {
    var early := EarlyTeam(team, e);
    forall r, ident | 0 <= r < |team| && Has(early[r].segs, ident) ensures Has(LateTeam(team, e)[r].segs, ident) {
      assert Loads(e.late[r], early[r].segs);
      var s :| s in early[r].segs && s.ident == ident;
      assert StillThere(e.late[r], s);
      var t :| t in e.late[r] && t.SamePlace(s);
      var i :| 0 <= i < |e.late[r]| && e.late[r][i] == t;
      InheritKeepsPlace(t, early[r].segs);
      assert LateTeam(team, e)[r].segs[i] in LateTeam(team, e)[r].segs;
    }
  }

  ghost predicate HoldUpTo(team: V.Team, n: nat, ident: Ident)
    requires n <= |team|
  {
    forall q :: 0 <= q < n ==> V.Holds(team[q].segs, ident)
  }

  /** Every rank's checklist, and-reduced. */
  method CheckAll(team: seq<Process>, hashes: seq<Ident>) returns (checks: seq<bool>)
    ensures checks == V.Checks(States(team), hashes)
  {
    ghost var t := States(team);
    checks := seq(|hashes|, k => true);
    for r := 0 to |team|
      invariant |checks| == |hashes|
      invariant forall k :: 0 <= k < |hashes| ==> (checks[k] <==> HoldUpTo(t, r, hashes[k]))
    {
      var mine := team[r].Check(hashes);
      ghost var before := checks;
      checks := seq(|hashes|, k requires 0 <= k < |hashes| => checks[k] && mine[k]);
      forall k | 0 <= k < |hashes| ensures checks[k] <==> HoldUpTo(t, r + 1, hashes[k]) {
        assert mine[k] <==> V.Holds(t[r].segs, hashes[k]);
        assert before[k] <==> HoldUpTo(t, r, hashes[k]);
      }
    }
  }

  method FinishAll(team: seq<Process>, hashes: seq<Ident>, checks: seq<bool>) returns (ending: Ending)
    requires Distinct(team) && |hashes| == |checks| && NoRepeats(hashes)
    requires forall r :: 0 <= r < |team| ==> team[r].Valid() && team[r].starts != []
    modifies team
    ensures ending == PastTable <==>
      exists r :: 0 <= r < |team| && team[r].OverrunsAll(old(team[r].State()), hashes, checks)
    ensures ending == AllDone <==>
      forall r :: 0 <= r < |team| ==> team[r].CanFinishAll(old(team[r].State()), hashes, checks)
    ensures ending == AllDone ==> HaveRoom(team) && forall r :: 0 <= r < |team| ==>
      team[r].State() == V.FinishAll(old(team[r].State()), hashes, checks)
  {
    hide WellFormed, TableCovers, V.FinishAll, NoRepeats, Process.CanFinishAll, Process.OverrunsAll, V.Judged;
    var past, ends := false, false;
    for r := 0 to |team|
      invariant past <==> exists k :: 0 <= k < r && team[k].OverrunsAll(old(team[k].State()), hashes, checks)
      invariant !past && !ends <==>
        forall k :: 0 <= k < r ==> team[k].CanFinishAll(old(team[k].State()), hashes, checks)
      invariant !past && !ends ==> forall k :: 0 <= k < r ==>
        && team[k].State() == V.FinishAll(old(team[k].State()), hashes, checks)
        && team[k].starts != [] && |team[k].starts| <= team[k].maxSegments
      invariant forall k :: r <= k < |team| ==> team[k].State() == old(team[k].State())
    {
      TableGrows(team[r].State(), hashes, checks);
      var done := team[r].FinishAll(hashes, checks);
      past, ends := past || done == Overrun, ends || done == Ended;
    }
    ending := if past then PastTable else if ends then ProgramEnds else AllDone;
  }

  lemma TableGrows(r: V.Rank, hashes: seq<Ident>, checks: seq<bool>)
    requires |hashes| == |checks| && r.starts != []
    ensures V.FinishAll(r, hashes, checks).starts != []
  {
  }

  /** verify_all can finish on every rank. */
  ghost predicate CanFinish(team: seq<Process>, was: V.Team, e: Event)
    requires e.AllSegments? && Lawful(was, e) && |team| == |was|
  {
    var hashes := V.Idents(EarlyTeam(was, e)[0].segs);
    var checks := V.Checks(EarlyTeam(was, e), hashes);
    forall r :: 0 <= r < |team| ==> team[r].CanFinishAll(LateTeam(was, e)[r], hashes, checks)
  }

  /** verify_all reads past a full table on some rank. */
  ghost predicate ReadsPast(team: seq<Process>, was: V.Team, e: Event)
    requires e.AllSegments? && Lawful(was, e) && |team| == |was|
  {
    var hashes := V.Idents(EarlyTeam(was, e)[0].segs);
    var checks := V.Checks(EarlyTeam(was, e), hashes);
    exists r :: 0 <= r < |team| && team[r].OverrunsAll(LateTeam(was, e)[r], hashes, checks)
  }

  /** Each rank that checks finds its own program on all ranks. */
  ghost predicate PrimaryEverywhere(team: seq<Process>, early: V.Team, late: V.Team, r: nat)
    requires r < |team| == |late|
  {
    team[r].asserting ==>
      forall s :: s in late[r].segs && s.start == team[r].primaryStart ==> Everywhere(early, s.ident)
  }

  lemma PrimaryMeans(team: seq<Process>, early: V.Team, late: V.Team, names: seq<Ident>, r: nat)
    requires Both(early, late, names) && r < |team| == |late|
    ensures team[r].PrimaryPasses(JudgedOn(early, late, r)) <==> PrimaryEverywhere(team, early, late, r)
  {
    var segs, judged := late[r].segs, JudgedOn(early, late, r);
    JudgedOnMap(early, late, names, r);
    hide Both, JudgedOn, Everywhere, WellFormed;
    forall k | 0 <= k < |judged|
      ensures judged[k].start == segs[k].start && (judged[k].verified <==> Everywhere(early, segs[k].ident))
    {
    }
    if team[r].PrimaryPasses(judged) && team[r].asserting {
      forall s | s in segs && s.start == team[r].primaryStart ensures Everywhere(early, s.ident) {
        var k :| 0 <= k < |segs| && segs[k] == s;
        assert judged[k].start == s.start;
      }
    }
    if PrimaryEverywhere(team, early, late, r) && team[r].asserting {
      forall k | 0 <= k < |judged| && judged[k].start == team[r].primaryStart ensures judged[k].verified {
        assert segs[k] in segs;
      }
    }
  }

  /** On ranks that agree, the second half of verify_all finishes on a rank exactly when its own program is
      loaded everywhere, as far as that is checked, and every segment that is new to the table gets a slot.
      It looks past the table exactly when the program is, some segment is new, and no slot is left. */
  ghost predicate Finishes(team: seq<Process>, early: V.Team, late: V.Team, names: seq<Ident>, r: nat)
    requires early != [] && names != [] && r < |team| == |late|
  {
    && late[r].starts != []
    && var hashes := V.Idents(early[0].segs); var checks := V.Checks(early, hashes);
    && (team[r].CanFinishAll(late[r], hashes, checks) <==>
      PrimaryEverywhere(team, early, late, r) && |names| + |NotNamedYet(early, names)| <= team[r].maxSegments)
    && (team[r].OverrunsAll(late[r], hashes, checks) <==>
      && PrimaryEverywhere(team, early, late, r)
      && |names| == team[r].maxSegments && NotNamedYet(early, names) != {})
  }

  lemma FinishesExactly(team: seq<Process>, early: V.Team, late: V.Team, names: seq<Ident>, r: nat)
    requires Both(early, late, names) && r < |team| == |late|
    ensures Finishes(team, early, late, names, r)
  {
    IndicesNeeded(early, late, names, r);
    PrimaryMeans(team, early, late, names, r);
    hide Both, PrimaryEverywhere, Everywhere, V.FinishAll, NotNamedYet, Process.PrimaryPasses;
  }

  lemma AllFinish(team: seq<Process>, early: V.Team, late: V.Team, names: seq<Ident>)
    requires early != [] && names != [] && |team| == |late|
    requires forall r :: 0 <= r < |team| ==> late[r].starts != []
    requires forall r :: 0 <= r < |team| ==> Finishes(team, early, late, names, r)
    ensures var hashes := V.Idents(early[0].segs); var checks := V.Checks(early, hashes);
      (forall r :: 0 <= r < |team| ==> team[r].CanFinishAll(late[r], hashes, checks)) <==>
        (forall r :: 0 <= r < |team| ==> |names| + |NotNamedYet(early, names)| <= team[r].maxSegments) &&
        (forall r :: 0 <= r < |team| && team[r].asserting ==>
          forall s :: s in late[r].segs && s.start == team[r].primaryStart ==> Everywhere(early, s.ident))
  {
    hide NotNamedYet, Process.CanFinishAll, Process.OverrunsAll, Everywhere, V.Idents, V.Checks;
    var hashes := V.Idents(early[0].segs);
    var checks := V.Checks(early, hashes);
    forall r | 0 <= r < |team|
      ensures team[r].CanFinishAll(late[r], hashes, checks) <==>
        && |names| + |NotNamedYet(early, names)| <= team[r].maxSegments
        && (team[r].asserting ==>
          forall s :: s in late[r].segs && s.start == team[r].primaryStart ==> Everywhere(early, s.ident))
    {
      assert Finishes(team, early, late, names, r);
    }
  }

  lemma StepFinishes(team: seq<Process>, was: V.Team, e: Event, names: seq<Ident>)
    requires e.AllSegments? && Lawful(was, e) && |team| == |was| && V.Agrees(was, names)
    ensures CanFinish(team, was, e) <==>
      (forall r :: 0 <= r < |team| ==> |names| + |NotNamedYet(EarlyTeam(was, e), names)| <= team[r].maxSegments) &&
      (forall r :: 0 <= r < |team| && team[r].asserting ==> forall s ::
        s in LateTeam(was, e)[r].segs && s.start == team[r].primaryStart ==> Everywhere(EarlyTeam(was, e), s.ident))
  {
    StepMaps(was, e, names);
    forall r | 0 <= r < |team| ensures Finishes(team, EarlyTeam(was, e), LateTeam(was, e), names, r) {
      FinishesExactly(team, EarlyTeam(was, e), LateTeam(was, e), names, r);
    }
    AllFinish(team, EarlyTeam(was, e), LateTeam(was, e), names);
    hide V.Agrees, V.Idents, V.Checks, NotNamedYet, Process.CanFinishAll, Process.OverrunsAll, Everywhere, Finishes;
  }

  /** The phases of verify_all: rebuild, check, reduce, rebuild again and finish. */
  method CheckAndFinish(team: seq<Process>, early: seq<seq<Segment>>, late: seq<seq<Segment>>)
    returns (ending: Ending)
    requires Distinct(team) && Lawful(States(team), AllSegments(early, late))
    requires forall r :: 0 <= r < |team| ==> team[r].Valid()
    modifies team
    ensures ending == AllDone <==> CanFinish(team, old(States(team)), AllSegments(early, late))
    ensures ending == PastTable <==> ReadsPast(team, old(States(team)), AllSegments(early, late))
    ensures ending == AllDone ==>
      HaveRoom(team) && Step(old(States(team)), AllSegments(early, late)) == Running(States(team))
  {
    hide Rebuilt, V.FinishAll, V.Holds, Loads, WellFormed, TableCovers;
    ghost var was, e := States(team), AllSegments(early, late);
    RebuildAll(team, early);
    assert States(team) == EarlyTeam(was, e);
    RebuiltIsValid(was, early);
    var hashes := V.Idents(team[0].segments);
    DistinctIdents(team[0].segments);
    var checks := CheckAll(team, hashes);
    RebuildAll(team, late);
    assert States(team) == LateTeam(was, e);
    RebuiltIsValid(EarlyTeam(was, e), late);
    ending := FinishAll(team, hashes, checks);
    assert ending == AllDone ==> States(team) == V.VerifyAll(EarlyTeam(was, e), LateTeam(was, e));
  }

  /** verify_all. On ranks that agree, all of them finish exactly when every segment that is new has a slot on
      every rank and, where that is checked, the rank's own program is loaded everywhere. */
  method VerifyAll(team: seq<Process>, early: seq<seq<Segment>>, late: seq<seq<Segment>>) returns (ending: Ending)
    requires Distinct(team) && Lawful(States(team), AllSegments(early, late))
    requires forall r :: 0 <= r < |team| ==> team[r].Valid()
    modifies team
    ensures ending == AllDone <==> CanFinish(team, old(States(team)), AllSegments(early, late))
    ensures ending == PastTable <==> ReadsPast(team, old(States(team)), AllSegments(early, late))
    ensures forall names :: V.Agrees(old(States(team)), names) ==>
      var was, e := old(States(team)), AllSegments(early, late);
      (ending == AllDone <==>
        (forall r :: 0 <= r < |team| ==> |names| + |NotNamedYet(EarlyTeam(was, e), names)| <= team[r].maxSegments) &&
        (forall r :: 0 <= r < |team| && team[r].asserting ==> forall s ::
          s in LateTeam(was, e)[r].segs && s.start == team[r].primaryStart ==> Everywhere(EarlyTeam(was, e), s.ident)))
    ensures ending == AllDone ==>
      HaveRoom(team) && Step(old(States(team)), AllSegments(early, late)) == Running(States(team))
  {
    hide CanFinish, ReadsPast, NotNamedYet, Everywhere, V.Follows, Step, HaveRoom, V.RebuiltTeam, Loads;
    ghost var was, e := States(team), AllSegments(early, late);
    ending := CheckAndFinish(team, early, late);
    forall names | V.Agrees(was, names)
      ensures ending == AllDone <==>
        (forall r :: 0 <= r < |team| ==> |names| + |NotNamedYet(EarlyTeam(was, e), names)| <= team[r].maxSegments) &&
        (forall r :: 0 <= r < |team| && team[r].asserting ==> forall s ::
          s in LateTeam(was, e)[r].segs && s.start == team[r].primaryStart ==> Everywhere(EarlyTeam(was, e), s.ident))
    {
      StepFinishes(team, was, e, names);
    }
  }

  lemma DistinctIdents(segs: seq<Segment>)
    requires WellFormed(segs)
    ensures NoRepeats(V.Idents(segs))
  {
    forall i, j | 0 <= i < j < |segs| ensures segs[i].ident != segs[j].ident {
      assert Apart(segs[i], segs[j]);
    }
  }

  /** Rebuilding keeps every map well-formed and covered by its table. */
  lemma RebuiltIsValid(team: V.Team, loaded: seq<seq<Segment>>)
    requires LoadsAll(loaded, team)
    requires forall r :: 0 <= r < |team| ==> WellFormed(team[r].segs) && TableCovers(team[r])
    ensures forall r :: 0 <= r < |team| ==>
      WellFormed(V.RebuiltTeam(team, loaded)[r].segs) && TableCovers(V.RebuiltTeam(team, loaded)[r])
  {
    hide WellFormed, Rebuilt, Fresh, Covers;
    forall r | 0 <= r < |team|
      ensures WellFormed(Rebuilt(team[r].segs, loaded[r])) && TableCovers(V.RebuiltTeam(team, loaded)[r])
    {
      assert Loads(loaded[r], team[r].segs);
      RebuildGrows(team[r].segs, loaded[r]);
      GrowthKeepsTable(team[r], Rebuilt(team[r].segs, loaded[r]));
    }
  }
}
