/**
  The target selector and the three capture-pool operations: hunting a
  target, rescuing teammates and committing treason; plus the roster helper
  that removes one player from a slice.
 */
module Captures {
  import opened Teams
  import opened GameState

  /** A player that a member of team `hunter` may capture: one of its prey,
      neither already hunted nor in base. */
  predicate Eligible(target: Player, hunter: Team)
  {
    target.team == Prey(hunter) && !target.hunted && !target.inBase
  }

  /** `findTarget`: the first eligible player in roster order, or none. */
  function FindTarget(ps: seq<Player>, hunter: Player): (r: Option<Slot>)
    ensures r.Some? ==> r.value < |ps| && Eligible(ps[r.value], hunter.team)
    ensures r.Some? ==> forall j :: 0 <= j < r.value ==> !Eligible(ps[j], hunter.team)
    ensures r.None? <==> forall j :: 0 <= j < |ps| ==> !Eligible(ps[j], hunter.team)
  {
    if |ps| == 0 then None
    else if Eligible(ps[0], hunter.team) then Some(0)
    else match FindTarget(ps[1..], hunter)
      case None => None
      case Some(j) => Some(j + 1)
  }

  /** The hunt branch of the play loop: the player at slot `hunter` captures
      the player at slot `target`, which joins the hunter team's bucket. */
  function Hunt(g: Game, hunter: Slot, target: Slot): (g': Game)
    requires WellFormed(g)
    requires hunter < |g.players| && target < |g.players|
    ensures WellFormed(g')
    ensures SameRoster(g.players, g'.players)
    ensures g'.players[target] == g.players[target].(hunted := true)
    ensures forall j :: 0 <= j < |g.players| && j != target ==> g'.players[j] == g.players[j]
    ensures g'.hunterBase.Keys == g.hunterBase.Keys + {g.players[hunter].team}
    ensures Captives(g'.hunterBase, g.players[hunter].team)
         == Captives(g.hunterBase, g.players[hunter].team) + [target]
    ensures forall t :: t != g.players[hunter].team ==> Captives(g'.hunterBase, t) == Captives(g.hunterBase, t)
    ensures GaugeValue(g'.huntedGauge, g.players[target].team) == GaugeValue(g.huntedGauge, g.players[target].team) + 1
    ensures forall t :: t != g.players[target].team ==> GaugeValue(g'.huntedGauge, t) == GaugeValue(g.huntedGauge, t)
  {
    var c := g.players[hunter].team;
    var victim := g.players[target];
    Game(
      g.players[target := victim.(hunted := true)],
      g.hunterBase[c := Captives(g.hunterBase, c) + [target]],
      Bump(g.huntedGauge, victim.team, 1))
  }

  /** Every slot of `ks` refers to a player of `ps`. */
  predicate InRoster(ps: seq<Player>, ks: seq<Slot>)
  {
    forall j :: 0 <= j < |ks| ==> ks[j] < |ps|
  }

  /** The release loop shared by rescue and treason: clears `hunted` for each
      captive in turn. */
  function ReleaseAll(ps: seq<Player>, ks: seq<Slot>): (r: seq<Player>)
    requires InRoster(ps, ks)
    ensures |r| == |ps|
    ensures forall i :: 0 <= i < |ps| ==> r[i] == if i in ks then ps[i].(hunted := false) else ps[i]
    decreases |ks|
  {
    if ks == [] then ps
    else
      assert ks == [ks[0]] + ks[1..];
      ReleaseAll(ps[ks[0] := ps[ks[0]].(hunted := false)], ks[1..])
  }

  /** The treason loop's gauge updates: one decrement per released captive,
      under the captive's own team. */
  function DropEach(gauge: map<Team, int>, ps: seq<Player>, ks: seq<Slot>): map<Team, int>
    requires InRoster(ps, ks)
    decreases |ks|
  {
    if ks == [] then gauge
    else DropEach(Bump(gauge, ps[ks[0]].team, -1), ps, ks[1..])
  }

  /** Some bucket keyed by a team that hunts `c` holds slot `k`. */
  predicate HeldByHunterOf(hb: map<Team, seq<Slot>>, c: Team, k: Slot)
  {
    exists t :: t in hb && Prey(t) == c && k in hb[t]
  }

  /** `rescueTeammates`: the player at slot `i` empties every bucket keyed by a
      team whose prey is the player's team, and frees every former member.
      The source decrements the gauge once per freed player under the
      rescuer's team. */
  function RescueTeammates(g: Game, i: Slot): (g': Game)
    requires WellFormed(g)
    requires i < |g.players|
    ensures WellFormed(g')
    ensures g'.hunterBase.Keys == g.hunterBase.Keys
    ensures forall t :: t in g.hunterBase && Prey(t) == g.players[i].team ==> g'.hunterBase[t] == []
    ensures forall t :: t in g.hunterBase && Prey(t) != g.players[i].team ==> g'.hunterBase[t] == g.hunterBase[t]
    ensures SameRoster(g.players, g'.players)
    ensures forall k :: 0 <= k < |g.players| ==>
              g'.players[k] == if HeldByHunterOf(g.hunterBase, g.players[i].team, k)
                               then g.players[k].(hunted := false) else g.players[k]
    ensures GaugeValue(g'.huntedGauge, g.players[i].team)
         == GaugeValue(g.huntedGauge, g.players[i].team) - |Captives(g.hunterBase, Hunter(g.players[i].team))|
    ensures forall t :: t != g.players[i].team ==> GaugeValue(g'.huntedGauge, t) == GaugeValue(g.huntedGauge, t)
    ensures Captives(g.hunterBase, Hunter(g.players[i].team)) == [] ==> g'.huntedGauge == g.huntedGauge
  {
    var c := g.players[i].team;
    // Only one key of the table has `c` as its prey.
    var freed := Captives(g.hunterBase, Hunter(c));
    assert forall k :: HeldByHunterOf(g.hunterBase, c, k) <==> k in freed;
    Game(
      ReleaseAll(g.players, freed),
      map t | t in g.hunterBase :: if Prey(t) == c then [] else g.hunterBase[t],
      // The gauge label is touched once per freed captive, so a rescue that
      // frees nobody leaves the gauge as it was.
      if freed == [] then g.huntedGauge else Bump(g.huntedGauge, c, -|freed|))
  }

  /** `commitTreason`: the player at slot `i` empties its own team's bucket
      and frees every former member. */
  function CommitTreason(g: Game, i: Slot): (g': Game)
    requires WellFormed(g)
    requires i < |g.players|
    ensures WellFormed(g')
    ensures g'.hunterBase.Keys == g.hunterBase.Keys + {g.players[i].team}
    ensures g'.hunterBase[g.players[i].team] == []
    ensures forall t :: t in g.hunterBase && t != g.players[i].team ==> g'.hunterBase[t] == g.hunterBase[t]
    ensures SameRoster(g.players, g'.players)
    ensures forall k :: 0 <= k < |g.players| ==>
              g'.players[k] == if k in Captives(g.hunterBase, g.players[i].team)
                               then g.players[k].(hunted := false) else g.players[k]
  {
    var c := g.players[i].team;
    var freed := Captives(g.hunterBase, c);
    Game(
      ReleaseAll(g.players, freed),
      g.hunterBase[c := []],
      DropEach(g.huntedGauge, g.players, freed))
  }

  /** `removePlayerFromSlice`: drops the first occurrence of `x`, keeping the
      order of the rest; returns the input when `x` is absent. */
  method RemovePlayerFromSlice<T(==)>(s: seq<T>, x: T) returns (r: seq<T>)
    ensures x !in s ==> r == s
    ensures x in s ==> exists i :: 0 <= i < |s| && s[i] == x && x !in s[..i] && r == s[..i] + s[i + 1..]
    ensures multiset(r) == multiset(s) - multiset{x}
  {
    var i := 0;
    while i < |s|
      invariant 0 <= i <= |s|
      invariant x !in s[..i]
    {
      if s[i] == x {
        r := s[..i] + s[i + 1..];
        assert s == s[..i] + [x] + s[i + 1..];
        return;
      }
      i := i + 1;
    }
    assert s[..i] == s;
    r := s;
  }
}
