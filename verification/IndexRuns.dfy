/** Runs: collective verification steps with map growth in between and during them. */
module IndexRuns {
  import opened Segments
  import opened Verification
  import opened IndexAgreement
  import opened VerifyingAll

  /** The lists are what the loader reports on each rank: when the step starts, and when it records its
      outcome. */
  datatype Event =
    | Grow(rank: nat, loaded: seq<Segment>)
    | OneSegment(early: seq<seq<Segment>>, late: seq<seq<Segment>>, ps: seq<nat>)
    | AllSegments(early: seq<seq<Segment>>, late: seq<seq<Segment>>)

  /** A pointer into a segment that cannot be relocated ends the program. */
  datatype State = Running(team: Team) | Aborted

  ghost predicate Loads(loaded: seq<Segment>, segs: seq<Segment>) {
    WellFormed(loaded) && Fresh(loaded) && Covers(loaded, segs)
  }

  ghost predicate LoadsAll(loaded: seq<seq<Segment>>, team: Team) {
    OneEach(team, loaded) && forall r :: 0 <= r < |team| ==> Loads(loaded[r], team[r].segs)
  }

  /** Nothing is unloaded, neither before the step nor while it runs. */
  ghost predicate Lawful(team: Team, e: Event) {
    match e
    case Grow(rank, loaded) => rank < |team| && Loads(loaded, team[rank].segs)
    case OneSegment(early, late, ps) =>
      && LoadsAll(early, team) && LoadsAll(late, RebuiltTeam(team, early)) && |ps| == |team|
    case AllSegments(early, late) =>
      && LoadsAll(early, team) && LoadsAll(late, RebuiltTeam(team, early))
      && forall r :: 0 <= r < |team| ==> team[r].starts != []
  }

  function EarlyTeam(team: Team, e: Event): (t: Team)
    requires e.OneSegment? || e.AllSegments?
    requires OneEach(team, e.early)
    ensures |t| == |team|
  {
    RebuiltTeam(team, e.early)
  }

  function LateTeam(team: Team, e: Event): (t: Team)
    requires e.OneSegment? || e.AllSegments?
    requires OneEach(team, e.early) && |e.late| == |team|
    ensures |t| == |team|
  {
    RebuiltTeam(RebuiltTeam(team, e.early), e.late)
  }

  ghost function Step(team: Team, e: Event): State
    requires Lawful(team, e)
  {
    match e
    case Grow(rank, loaded) =>
      Running(team[rank := Rank(Rebuilt(team[rank].segs, loaded), team[rank].starts)])
    case OneSegment(early, late, ps) =>
      if exists r :: 0 <= r < |team| && HitsBadSegment(EarlyTeam(team, e)[r].segs, ps[r]) then Aborted
      else Running(VerifySegment(EarlyTeam(team, e), LateTeam(team, e), ps))
    case AllSegments(early, late) => Running(VerifyAll(EarlyTeam(team, e), LateTeam(team, e)))
  }

  // ---- Growth of the team ----

  lemma RebuiltTeamAgrees(team: Team, loaded: seq<seq<Segment>>, names: seq<Ident>)
    requires Agrees(team, names) && LoadsAll(loaded, team)
    ensures Agrees(RebuiltTeam(team, loaded), names)
    ensures GrownTeam(team, RebuiltTeam(team, loaded))
    ensures forall r, ident :: 0 <= r < |team| ==>
      (VerifiedOn(RebuiltTeam(team, loaded)[r], ident) <==> VerifiedOn(team[r], ident))
  {
    hide WellFormed, Fresh, Covers, HoldsSlot, FollowsSegment, VerifiedOn;
    forall r | 0 <= r < |team|
      ensures Follows(RebuiltTeam(team, loaded)[r], names)
      ensures forall ident :: Has(team[r].segs, ident) ==> Has(RebuiltTeam(team, loaded)[r].segs, ident)
      ensures forall ident :: VerifiedOn(RebuiltTeam(team, loaded)[r], ident) <==> VerifiedOn(team[r], ident)
    {
      assert Follows(team[r], names);
      RebuildGrows(team[r].segs, loaded[r]);
      GrowthKeepsFollowing(team[r], Rebuilt(team[r].segs, loaded[r]), names);
      GrowthKeepsHashes(team[r].segs, Rebuilt(team[r].segs, loaded[r]));
    }
  }

  lemma GrowthKeepsHashes(olds: seq<Segment>, news: seq<Segment>)
    requires Grown(olds, news)
    ensures forall ident :: Has(olds, ident) ==> Has(news, ident)
  {
    forall ident | Has(olds, ident) ensures Has(news, ident) {
      var o :| o in olds && o.ident == ident;
      assert KeptIn(news, o);
    }
  }

  /** The two maps a collective step works with agree, name the same segments and carry the flags from
      before the step. */
  lemma StepMaps(team: Team, e: Event, names: seq<Ident>)
    requires Agrees(team, names) && Lawful(team, e) && (e.OneSegment? || e.AllSegments?)
    ensures Both(EarlyTeam(team, e), LateTeam(team, e), names)
    ensures forall r, ident :: 0 <= r < |team| ==>
      (VerifiedOn(LateTeam(team, e)[r], ident) <==> VerifiedOn(team[r], ident))
    ensures Uniform(team) <==> Uniform(LateTeam(team, e))
  {
    hide Agrees, GrownTeam, VerifiedOn, RebuiltTeam, Loads;
    RebuiltTeamAgrees(team, e.early, names);
    RebuiltTeamAgrees(RebuiltTeam(team, e.early), e.late, names);
    SameFlagsSameUniform(team, LateTeam(team, e));
  }

  lemma SameFlagsSameUniform(team: Team, other: Team)
    requires |team| == |other|
    requires forall r, ident :: 0 <= r < |team| ==> (VerifiedOn(other[r], ident) <==> VerifiedOn(team[r], ident))
    ensures Uniform(team) <==> Uniform(other)
  {
    hide VerifiedOn;
  }

  // ---- Steps ----

  /** A successful step on a segment that some ranks hold as verified and others do not. */
  ghost predicate Splits(team: Team, e: Event)
    requires Lawful(team, e)
  {
    e.OneSegment? && Succeeds(EarlyTeam(team, e), e.ps)
    && Mixed(LateTeam(team, e), Common(EarlyTeam(team, e), e.ps))
  }

  /** A failing step in which some rank named a segment that it holds as verified. */
  ghost predicate Unmarks(team: Team, e: Event)
    requires Lawful(team, e)
  {
    e.OneSegment? && !Succeeds(EarlyTeam(team, e), e.ps)
    && PointsIntoVerified(EarlyTeam(team, e), LateTeam(team, e), e.ps)
  }

  /** A step keeps the ranks in agreement exactly when it does not split them. */
  lemma StepKeepsAgreement(team: Team, e: Event)
    requires Agreed(team) && Lawful(team, e) && Step(team, e).Running?
    ensures Agreed(Step(team, e).team) <==> !Splits(team, e)
  {
    hide Agrees, VerifySegment, VerifyAll, Mixed, Succeeds, EarlyTeam, LateTeam;
    var names :| Agrees(team, names);
    match e
    case Grow(rank, loaded) => GrowKeepsAgreement(team, e, names);
    case OneSegment(early, late, ps) =>
      StepMaps(team, e, names);
      VerifySegmentKeepsAgreement(EarlyTeam(team, e), LateTeam(team, e), ps);
    case AllSegments(early, late) =>
      StepMaps(team, e, names);
      VerifyAllKeepsAgreement(EarlyTeam(team, e), LateTeam(team, e), names);
  }

  lemma GrowKeepsAgreement(team: Team, e: Event, names: seq<Ident>)
    requires Agrees(team, names) && Lawful(team, e) && e.Grow?
    ensures Agrees(Step(team, e).team, names)
    ensures forall r, ident :: 0 <= r < |team| ==>
      (VerifiedOn(Step(team, e).team[r], ident) <==> VerifiedOn(team[r], ident))
  {
    hide WellFormed, Fresh, Covers, HoldsSlot, FollowsSegment, VerifiedOn;
    assert Follows(team[e.rank], names);
    RebuildGrows(team[e.rank].segs, e.loaded);
    GrowthKeepsFollowing(team[e.rank], Rebuilt(team[e.rank].segs, e.loaded), names);
  }

  /** Steps that take no flag away leave a segment verified on all ranks or on none, and verify_all
      brings that about from any state. */
  lemma StepKeepsUniform(team: Team, e: Event)
    requires Agreed(team) && Lawful(team, e) && Step(team, e).Running?
    ensures Uniform(team) ==> !Splits(team, e) && (Uniform(Step(team, e).team) <==> !Unmarks(team, e))
    ensures e.AllSegments? ==> Uniform(Step(team, e).team)
  {
    hide Agrees, VerifySegment, VerifyAll, Succeeds, EarlyTeam, LateTeam, PointsIntoVerified, VerifiedOn, GrownTeam,
      Uniform;
    var names :| Agrees(team, names);
    match e {
      case Grow(rank, loaded) =>
        GrowKeepsAgreement(team, e, names);
        SameFlagsSameUniform(team, Step(team, e).team);
      case OneSegment(early, late, ps) =>
        StepMaps(team, e, names);
        if Uniform(team) {
          VerifySegmentKeepsUniform(EarlyTeam(team, e), LateTeam(team, e), ps);
          UniformIsNotMixed(LateTeam(team, e), Common(EarlyTeam(team, e), ps));
        }
      case AllSegments(early, late) =>
        StepMaps(team, e, names);
        VerifyAllKeepsAgreement(EarlyTeam(team, e), LateTeam(team, e), names);
    }
  }

  lemma UniformIsNotMixed(team: Team, ident: Ident)
    requires Uniform(team)
    ensures !Mixed(team, ident)
  {
  }

  // ---- Runs ----

  /** teams[i] is the state before events[i]; the last one is where the run ends. */
  ghost predicate IsRun(teams: seq<Team>, events: seq<Event>) {
    |teams| == |events| + 1 && forall i :: 0 <= i < |events| ==> IsStep(teams, events, i)
  }

  ghost predicate IsStep(teams: seq<Team>, events: seq<Event>, i: nat)
    requires i < |events| && |teams| == |events| + 1
  {
    Lawful(teams[i], events[i]) && Step(teams[i], events[i]) == Running(teams[i + 1])
  }

  /** Before any verification: empty tables, maps as loaded. */
  ghost predicate Initial(team: Team) {
    team != [] && forall r :: 0 <= r < |team| ==>
      team[r].starts == [0] && WellFormed(team[r].segs) && Fresh(team[r].segs)
  }

  lemma InitialAgrees(team: Team)
    requires Initial(team)
    ensures Agrees(team, [NO_IDENT]) && Uniform(team)
  {
    hide WellFormed;
    forall r | 0 <= r < |team|
      ensures Follows(team[r], [NO_IDENT])
      ensures forall ident :: !VerifiedOn(team[r], ident)
    {
    }
  }

  /** A run stays in agreement throughout exactly when none of its steps splits the ranks. */
  lemma {:induction false} RunAgreesUnlessSplit(teams: seq<Team>, events: seq<Event>)
    requires IsRun(teams, events) && Agreed(teams[0])
    ensures (forall i :: 0 <= i < |teams| ==> Agreed(teams[i]))
      <==> (forall i :: 0 <= i < |events| ==> Lawful(teams[i], events[i]) && !Splits(teams[i], events[i]))
    decreases |events|
  {
    hide Agreed, Lawful, Step, Splits;
    if events != [] {
      var n := |events| - 1;
      var teams', events' := teams[..n + 1], events[..n];
      forall i | 0 <= i < n ensures IsStep(teams', events', i) {
        assert IsStep(teams, events, i);
      }
      RunAgreesUnlessSplit(teams', events');
      assert IsStep(teams, events, n);
      if Agreed(teams[n]) {
        StepKeepsAgreement(teams[n], events[n]);
      }
      assert teams == teams' + [teams[n + 1]] && events == events' + [events[n]];
    }
  }

  /** No run in which every failing verify_segment names only segments not yet verified ever leaves
      agreement, whatever grows in between and however often steps repeat. */
  lemma {:induction false} RunKeepsAgreement(teams: seq<Team>, events: seq<Event>)
    requires IsRun(teams, events) && Agreed(teams[0]) && Uniform(teams[0])
    requires forall i :: 0 <= i < |events| ==> Lawful(teams[i], events[i]) && !Unmarks(teams[i], events[i])
    ensures Agreed(teams[|events|]) && Uniform(teams[|events|])
    decreases |events|
  {
    hide Agreed, Uniform, Lawful, Step, Splits, Unmarks;
    if events != [] {
      var n := |events| - 1;
      var teams', events' := teams[..n + 1], events[..n];
      forall i | 0 <= i < n ensures IsStep(teams', events', i) {
        assert IsStep(teams, events, i);
      }
      RunKeepsAgreement(teams', events');
      assert IsStep(teams, events, n);
      StepKeepsUniform(teams[n], events[n]);
      StepKeepsAgreement(teams[n], events[n]);
    }
  }

  /** In particular none that begins with maps as loaded and empty tables. */
  lemma RunFromTheStartAgrees(teams: seq<Team>, events: seq<Event>)
    requires IsRun(teams, events) && Initial(teams[0])
    requires forall i :: 0 <= i < |events| ==> Lawful(teams[i], events[i]) && !Unmarks(teams[i], events[i])
    ensures Agreed(teams[|events|]) && Uniform(teams[|events|])
  {
    hide Agrees, Uniform, Lawful, Unmarks, Initial, Step;
    InitialAgrees(teams[0]);
    RunKeepsAgreement(teams, events);
  }

  // ---- What an index means ----

  /** While the ranks agree, the index one rank has for a segment leads every other rank to the same
      segment at its own address. */
  lemma IndexNamesOneSegment(team: Team, q: nat, r: nat, s: Segment)
    requires Agreed(team) && q < |team| && r < |team| && s in team[q].segs && s.idx > 0
    ensures s.idx < |team[r].starts|
    ensures exists t :: t in team[r].segs && t.ident == s.ident && t.start == team[r].starts[s.idx]
  {
    var names :| Agrees(team, names);
    assert Follows(team[q], names) && Follows(team[r], names);
    assert FollowsSegment(s, names);
    assert HoldsSlot(team[r], names, s.idx);
  }

  /** So does every slot of the table that holds a segment on one rank, also one from an earlier
      verification of that segment. */
  lemma SlotNamesOneSegment(team: Team, q: nat, r: nat, s: Segment, k: nat)
    requires Agreed(team) && q < |team| && r < |team| && s in team[q].segs
    requires 0 < k < |team[q].starts| && team[q].starts[k] == s.start
    ensures k < |team[r].starts|
    ensures exists t :: t in team[r].segs && t.ident == s.ident && t.start == team[r].starts[k]
  {
    var names :| Agrees(team, names);
    assert Follows(team[q], names) && Follows(team[r], names);
    assert HoldsSlot(team[q], names, k) && HoldsSlot(team[r], names, k);
    var u :| u in team[q].segs && u.ident == names[k] && u.start == team[q].starts[k];
    SameSegment(team[q].segs, s, u);
  }
}
