/**
  The player agent: one iteration of the play loop as a step function, with
  the random draws taken as inputs, and runs of such iterations.
 */
module Agent {
  import opened Teams
  import opened GameState
  import opened Captures

  /** The outcomes of the iteration's random draws, each `true` when the draw
      fell under its chance: leaving base, attempting a rescue, returning to
      base, attempting a hunt. */
  datatype Draws = Draws(exitBase: bool, rescue: bool, enterBase: bool, hunt: bool)

  /** Sets the in-base flag of the player at slot `i`. */
  function SetInBase(g: Game, i: Slot, b: bool): (g': Game)
    requires i < |g.players|
    ensures SameRoster(g.players, g'.players)
  {
    g.(players := g.players[i := g.players[i].(inBase := b)])
  }

  /** Moving into or out of base changes that one player's base flag and
      nothing else: not its hunted flag, no other player, no bucket and no
      gauge label. */
  lemma SetInBaseChangesOneFlag(g: Game, i: Slot, b: bool)
    requires i < |g.players|
    ensures SetInBase(g, i, b).players[i].inBase == b
    ensures SetInBase(g, i, b).players[i].hunted == g.players[i].hunted
    ensures forall k :: 0 <= k < |g.players| && k != i ==> SetInBase(g, i, b).players[k] == g.players[k]
    ensures SetInBase(g, i, b).hunterBase == g.hunterBase && SetInBase(g, i, b).huntedGauge == g.huntedGauge
  {
  }

  /** One iteration of the play loop by the player at slot `i`, under the
      lock: possibly leave base; then, when free and out of base, the first
      matching branch of rescue, return to base, hunt, or treason when no
      target exists. */
  function Play(g: Game, i: Slot, d: Draws): (g': Game)
    requires WellFormed(g)
    requires i < |g.players|
    ensures WellFormed(g')
    ensures SameRoster(g.players, g'.players)
    ensures g.hunterBase.Keys <= g'.hunterBase.Keys
  {
    var g1 := if g.players[i].inBase && d.exitBase then SetInBase(g, i, false) else g;
    var p := g1.players[i];
    if !p.hunted && !p.inBase then
      var target := FindTarget(g1.players, p);
      if d.rescue then RescueTeammates(g1, i)
      else if d.enterBase then SetInBase(g1, i, true)
      else if target.Some? && d.hunt then Hunt(g1, i, target.value)
      else if target.None? then CommitTreason(g1, i)
      else g1
    else g1
  }

  /** An iteration changes the base flag of its own player only. */
  lemma PlayKeepsOtherBaseFlags(g: Game, i: Slot, d: Draws)
    requires WellFormed(g)
    requires i < |g.players|
    ensures forall k :: 0 <= k < |g.players| && k != i ==> Play(g, i, d).players[k].inBase == g.players[k].inBase
  {
  }

  /** A player out of base returns to base only while it is not hunted. */
  lemma PlayReturnsOnlyFreePlayers(g: Game, i: Slot, d: Draws)
    requires WellFormed(g)
    requires i < |g.players|
    ensures !g.players[i].inBase && Play(g, i, d).players[i].inBase ==> !g.players[i].hunted
  {
  }

  /** A player becomes hunted only if it was a valid target for the
      iterating player. */
  lemma PlayCapturesOnlyEligible(g: Game, i: Slot, d: Draws)
    requires WellFormed(g)
    requires i < |g.players|
    ensures forall k :: 0 <= k < |g.players| && !g.players[k].hunted && Play(g, i, d).players[k].hunted ==>
              Eligible(g.players[k], g.players[i].team)
  {
  }

  /** One iteration by a chosen player with chosen draws. */
  datatype Move = Move(player: Slot, draws: Draws)

  /** The iterations `moves`, applied in order (the lock serialises them). */
  function Run(g: Game, moves: seq<Move>): (g': Game)
    requires WellFormed(g)
    requires forall j :: 0 <= j < |moves| ==> moves[j].player < |g.players|
    ensures WellFormed(g')
    ensures SameRoster(g.players, g'.players)
    decreases |moves|
  {
    if moves == [] then g
    else Run(Play(g, moves[0].player, moves[0].draws), moves[1..])
  }
}
