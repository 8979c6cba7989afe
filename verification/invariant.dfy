/**
  The capture bookkeeping invariant of the game and its preservation by
  every iteration of the play loop, hence by every run from the initial
  state.
 */
module Safety {
  import opened Teams
  import opened GameState
  import opened Captures
  import opened Agent
  import opened Tally

  /** A hunted player sits in exactly one bucket; a free player in none. */
  predicate CaptureBookkeeping(g: Game)
  {
    forall k :: 0 <= k < |g.players| ==>
      Occurrences(g.hunterBase, k) == if g.players[k].hunted then 1 else 0
  }

  /** A hunted player is never in base. */
  predicate HuntedOutsideBase(g: Game)
  {
    forall k :: 0 <= k < |g.players| && g.players[k].hunted ==> !g.players[k].inBase
  }

  /** Bucket `t` holds only roster players of `t`'s prey. */
  predicate BucketsHoldPrey(g: Game)
  {
    forall t, j :: t in g.hunterBase && 0 <= j < |g.hunterBase[t]| ==>
      g.hunterBase[t][j] < |g.players| && g.players[g.hunterBase[t][j]].team == Prey(t)
  }

  /** The player at slot `k` has id `k + 1`. */
  predicate IdsFollowRoster(g: Game)
  {
    forall k :: 0 <= k < |g.players| ==> g.players[k].id == k + 1
  }

  /** The hunted gauge of each team equals the number of its hunted players. */
  predicate GaugeMirrorsHunted(g: Game)
  {
    forall t :: GaugeValue(g.huntedGauge, t) == HuntedCount(g.players, t)
  }

  predicate Invariant(g: Game)
  {
    && CaptureBookkeeping(g)
    && HuntedOutsideBase(g)
    && BucketsHoldPrey(g)
    && IdsFollowRoster(g)
    && GaugeMirrorsHunted(g)
  }

  /** What the invariant says about one bucket: its entries are distinct
      hunted players of the key's prey, and no entry occurs in it more often
      than over all buckets. */
  lemma {:induction false} BucketFacts(g: Game, t: Team)
    requires Invariant(g)
    ensures InRoster(g.players, Captives(g.hunterBase, t))
    ensures NoDuplicates(Captives(g.hunterBase, t))
    ensures forall j :: 0 <= j < |Captives(g.hunterBase, t)| ==>
              g.players[Captives(g.hunterBase, t)[j]].hunted
              && g.players[Captives(g.hunterBase, t)[j]].team == Prey(t)
  {
  }

  /** The initial state satisfies the invariant. */
  lemma InitialStateSatisfiesInvariant(numPlayers: int, teams: seq<Team>)
    requires IsTeamOrder(teams)
    ensures Invariant(InitializeGame(numPlayers, teams))
  {
    var g := InitializeGame(numPlayers, teams);
    forall t ensures GaugeValue(g.huntedGauge, t) == HuntedCount(g.players, t) {
      HuntedCountOfFreeRoster(g.players, t);
    }
    assert Captives(g.hunterBase, Fox) == [] && Captives(g.hunterBase, Chicken) == []
        && Captives(g.hunterBase, Snake) == [];
  }

  /** Leaving base, and returning to base while free, keep the invariant. */
  lemma {:induction false} SetInBasePreservesInvariant(g: Game, i: Slot, b: bool)
    requires Invariant(g)
    requires i < |g.players|
    requires b ==> !g.players[i].hunted
    ensures Invariant(SetInBase(g, i, b))
  {
    forall t ensures HuntedCount(SetInBase(g, i, b).players, t) == HuntedCount(g.players, t) {
      HuntedCountUpdate(g.players, i, g.players[i].(inBase := b), t);
    }
  }

  /** A hunt of a free target keeps the bucket bookkeeping. */
  lemma HuntKeepsBookkeeping(g: Game, i: Slot, k: Slot)
    requires Invariant(g)
    requires i < |g.players| && k < |g.players| && !g.players[k].hunted
    ensures CaptureBookkeeping(Hunt(g, i, k))
  {
  }

  /** A hunt adds to the hunter team's bucket a member of its prey. */
  lemma HuntKeepsPrey(g: Game, i: Slot, k: Slot)
    requires Invariant(g)
    requires i < |g.players| && k < |g.players| && g.players[k].team == Prey(g.players[i].team)
    ensures BucketsHoldPrey(Hunt(g, i, k))
  {
  }

  /** A hunt of a free target raises its team's count by one, as the gauge. */
  lemma HuntKeepsGauge(g: Game, i: Slot, k: Slot)
    requires Invariant(g)
    requires i < |g.players| && k < |g.players| && !g.players[k].hunted
    ensures GaugeMirrorsHunted(Hunt(g, i, k))
  {
    var g' := Hunt(g, i, k);
    forall t ensures GaugeValue(g'.huntedGauge, t) == HuntedCount(g'.players, t) {
      HuntedCountUpdate(g.players, k, g.players[k].(hunted := true), t);
    }
  }

  /** A hunt of an eligible target keeps the invariant. */
  lemma HuntPreservesInvariant(g: Game, i: Slot, k: Slot)
    requires Invariant(g)
    requires i < |g.players| && k < |g.players|
    requires Eligible(g.players[k], g.players[i].team)
    ensures Invariant(Hunt(g, i, k))
  {
    HuntKeepsBookkeeping(g, i, k);
    HuntKeepsPrey(g, i, k);
    HuntKeepsGauge(g, i, k);
  }

  /** A rescue frees exactly the members of the bucket keyed by the team that
      hunts the rescuer's team, and empties that bucket alone. */
  lemma RescueEffect(g: Game, i: Slot)
    requires WellFormed(g) && i < |g.players|
    ensures RescueTeammates(g, i).players
         == ReleaseAll(g.players, Captives(g.hunterBase, Hunter(g.players[i].team)))
    ensures forall t ::
              Captives(RescueTeammates(g, i).hunterBase, t)
              == if t == Hunter(g.players[i].team) then [] else Captives(g.hunterBase, t)
  {
  }

  /** A release of a whole bucket keeps the bookkeeping when that bucket is
      emptied and no other changes. */
  lemma ReleaseKeepsBookkeeping(g: Game, g': Game, t0: Team)
    requires Invariant(g)
    requires InRoster(g.players, Captives(g.hunterBase, t0))
    requires g'.players == ReleaseAll(g.players, Captives(g.hunterBase, t0))
    requires forall t :: Captives(g'.hunterBase, t) == if t == t0 then [] else Captives(g.hunterBase, t)
    ensures CaptureBookkeeping(g')
  {
  }

  /** A release of a whole bucket keeps prey in the buckets and keeps the
      flags consistent with base membership. */
  lemma ReleaseKeepsShape(g: Game, g': Game, t0: Team)
    requires Invariant(g)
    requires InRoster(g.players, Captives(g.hunterBase, t0))
    requires g'.players == ReleaseAll(g.players, Captives(g.hunterBase, t0))
    requires g'.hunterBase.Keys <= g.hunterBase.Keys + {t0}
    requires forall t :: Captives(g'.hunterBase, t) == if t == t0 then [] else Captives(g.hunterBase, t)
    ensures BucketsHoldPrey(g') && HuntedOutsideBase(g') && IdsFollowRoster(g')
  {
    forall t, j | t in g'.hunterBase && 0 <= j < |g'.hunterBase[t]|
      ensures g'.hunterBase[t][j] < |g'.players| && g'.players[g'.hunterBase[t][j]].team == Prey(t)
    {
      assert g'.hunterBase[t] == Captives(g'.hunterBase, t) == Captives(g.hunterBase, t);
      assert t in g.hunterBase;
    }
  }

  /** A rescue keeps the invariant. */
  lemma RescuePreservesInvariant(g: Game, i: Slot)
    requires Invariant(g)
    requires i < |g.players|
    ensures Invariant(RescueTeammates(g, i))
  {
    var g' := RescueTeammates(g, i);
    var h := Hunter(g.players[i].team);
    BucketFacts(g, h);
    RescueEffect(g, i);
    ReleaseKeepsBookkeeping(g, g', h);
    ReleaseKeepsShape(g, g', h);
    RescueKeepsGauge(g, i);
  }

  /** After a rescue the gauge still equals the count of hunted players per
      team, although the source decrements under the rescuer's label. */
  lemma RescueKeepsGauge(g: Game, i: Slot)
    requires Invariant(g)
    requires i < |g.players|
    ensures GaugeMirrorsHunted(RescueTeammates(g, i))
  {
    var g' := RescueTeammates(g, i);
    var c := g.players[i].team;
    var freed := Captives(g.hunterBase, Hunter(c));
    BucketFacts(g, Hunter(c));
    RescueEffect(g, i);
    forall t ensures GaugeValue(g'.huntedGauge, t) == HuntedCount(g'.players, t) {
      ReleaseAllCount(g.players, freed, t);
      TeamCountOfOneTeam(g.players, freed, c, t);
    }
  }

  /** A rescue frees only teammates of the rescuer: the bucket it empties is
      keyed by the team that hunts the rescuer's team. This is what makes the
      source's gauge decrement under the rescuer's team label correct. */
  lemma RescuedPlayersAreTeammates(g: Game, i: Slot, k: Slot)
    requires Invariant(g)
    requires i < |g.players| && k < |g.players|
    requires HeldByHunterOf(g.hunterBase, g.players[i].team, k)
    ensures g.players[k].team == g.players[i].team
    ensures g.players[k].hunted
    ensures !RescueTeammates(g, i).players[k].hunted
  {
  }

  /** Treason frees exactly the members of the traitor's own team's bucket,
      empties that bucket, and lowers the gauge of the freed players' teams. */
  lemma TreasonEffect(g: Game, i: Slot)
    requires WellFormed(g) && i < |g.players|
    ensures CommitTreason(g, i).players == ReleaseAll(g.players, Captives(g.hunterBase, g.players[i].team))
    ensures CommitTreason(g, i).huntedGauge
         == DropEach(g.huntedGauge, g.players, Captives(g.hunterBase, g.players[i].team))
    ensures forall t ::
              Captives(CommitTreason(g, i).hunterBase, t)
              == if t == g.players[i].team then [] else Captives(g.hunterBase, t)
  {
  }

  /** Treason keeps the invariant. */
  lemma TreasonPreservesInvariant(g: Game, i: Slot)
    requires Invariant(g)
    requires i < |g.players|
    ensures Invariant(CommitTreason(g, i))
  {
    var g' := CommitTreason(g, i);
    var c := g.players[i].team;
    BucketFacts(g, c);
    TreasonEffect(g, i);
    ReleaseKeepsBookkeeping(g, g', c);
    ReleaseKeepsShape(g, g', c);
    TreasonKeepsGauge(g, i);
  }

  /** After treason the gauge still equals the count of hunted players per
      team. */
  lemma TreasonKeepsGauge(g: Game, i: Slot)
    requires Invariant(g)
    requires i < |g.players|
    ensures GaugeMirrorsHunted(CommitTreason(g, i))
  {
    var g' := CommitTreason(g, i);
    var c := g.players[i].team;
    var freed := Captives(g.hunterBase, c);
    BucketFacts(g, c);
    TreasonEffect(g, i);
    forall t ensures GaugeValue(g'.huntedGauge, t) == HuntedCount(g'.players, t) {
      ReleaseAllCount(g.players, freed, t);
      DropEachValue(g.huntedGauge, g.players, freed, t);
    }
  }

  /** Treason frees only players of the traitor's prey, each hunted before. */
  lemma TreasonFreesPrey(g: Game, i: Slot, k: Slot)
    requires Invariant(g)
    requires i < |g.players| && k < |g.players|
    requires k in Captives(g.hunterBase, g.players[i].team)
    ensures g.players[k].team == Prey(g.players[i].team)
    ensures g.players[k].hunted
    ensures !CommitTreason(g, i).players[k].hunted
  {
  }

  /** Every iteration of the play loop keeps the invariant. */
  lemma {:induction false} PlayPreservesInvariant(g: Game, i: Slot, d: Draws)
    requires Invariant(g)
    requires i < |g.players|
    ensures Invariant(Play(g, i, d))
  {
    var g1 := if g.players[i].inBase && d.exitBase then SetInBase(g, i, false) else g;
    if g.players[i].inBase && d.exitBase {
      SetInBasePreservesInvariant(g, i, false);
    }
    var p := g1.players[i];
    if !p.hunted && !p.inBase {
      var target := FindTarget(g1.players, p);
      if d.rescue {
        RescuePreservesInvariant(g1, i);
      } else if d.enterBase {
        SetInBasePreservesInvariant(g1, i, true);
      } else if target.Some? && d.hunt {
        HuntPreservesInvariant(g1, i, target.value);
      } else if target.None? {
        TreasonPreservesInvariant(g1, i);
      }
    }
  }

  /** The nondeterministic step relation: some player runs one iteration
      with some draws. */
  ghost predicate Next(g: Game, g': Game)
  {
    WellFormed(g) && exists i: Slot, d: Draws :: i < |g.players| && g' == Play(g, i, d)
  }

  /** The invariant is inductive for the step relation. */
  lemma InvariantIsInductive(g: Game, g': Game)
    requires Invariant(g) && Next(g, g')
    ensures Invariant(g')
  {
    var i: Slot, d: Draws :| i < |g.players| && g' == Play(g, i, d);
    PlayPreservesInvariant(g, i, d);
  }

  /** Any run of iterations keeps the invariant. */
  lemma {:induction false} RunPreservesInvariant(g: Game, moves: seq<Move>)
    requires Invariant(g)
    requires forall j :: 0 <= j < |moves| ==> moves[j].player < |g.players|
    ensures Invariant(Run(g, moves))
    decreases |moves|
  {
    if moves != [] {
      PlayPreservesInvariant(g, moves[0].player, moves[0].draws);
      RunPreservesInvariant(Play(g, moves[0].player, moves[0].draws), moves[1..]);
    }
  }

  /** Every state reachable from the initial state satisfies the invariant:
      a player is hunted iff it sits in exactly one bucket, a hunted player
      is never in base, and the gauge counts the hunted players. */
  lemma ReachableStatesSatisfyInvariant(numPlayers: int, teams: seq<Team>, start: Game, moves: seq<Move>)
    requires IsTeamOrder(teams)
    requires start == InitializeGame(numPlayers, teams)
    requires forall j :: 0 <= j < |moves| ==> moves[j].player < |start.players|
    ensures Invariant(Run(start, moves))
  {
    assert Invariant(start) by {
      InitialStateSatisfiesInvariant(numPlayers, teams);
    }
    RunPreservesInvariant(start, moves);
  }

  /** An iteration by a hunted player changes nothing: it is not in base, so
      it cannot leave base, and both guards of the loop body are false. */
  lemma HuntedPlayerIsIdle(g: Game, i: Slot, d: Draws)
    requires Invariant(g)
    requires i < |g.players| && g.players[i].hunted
    ensures Play(g, i, d) == g
  {
  }

  /** A player empties its own team's bucket only by treason: with no rescue
      or return-to-base draw, and only when no eligible target exists. */
  lemma OwnBucketEmptiedOnlyByTreason(g: Game, i: Slot, d: Draws)
    requires WellFormed(g)
    requires i < |g.players|
    requires Captives(g.hunterBase, g.players[i].team) != []
    requires Captives(Play(g, i, d).hunterBase, g.players[i].team) == []
    ensures !d.rescue && !d.enterBase
    ensures FindTarget(g.players, g.players[i]).None?
  {
  }
}
