/**
  The game state: the roster of players, the per-team capture pool
  (`hunterBase`) and the per-team "currently hunted" gauge, together with
  the construction of the initial state.
 */
module GameState {
  import opened Teams

  datatype Option<T> = None | Some(value: T)

  /** A position in the roster. The source's buckets hold pointers to the
      roster's players; here they hold positions, so that changing a flag
      through a bucket changes the roster entry. */
  type Slot = nat

  datatype Player = Player(id: int, team: Team, hunted: bool, inBase: bool)

  /** `hunterBase[t]` lists the captives held by members of team `t`;
      `huntedGauge[t]` mirrors the metric counting hunted players of `t`
      (a label never touched reads as 0). */
  datatype Game = Game(
    players: seq<Player>,
    hunterBase: map<Team, seq<Slot>>,
    huntedGauge: map<Team, int>)

  /** The captives of team `t`; a missing bucket reads as empty, as a nil
      slice does. */
  function Captives(hb: map<Team, seq<Slot>>, t: Team): seq<Slot>
  {
    if t in hb then hb[t] else []
  }

  /** The value of a gauge label; a label never touched reads as 0. */
  function GaugeValue(gauge: map<Team, int>, t: Team): int
  {
    if t in gauge then gauge[t] else 0
  }

  /** Adds `delta` to one label of a gauge. */
  function Bump(gauge: map<Team, int>, t: Team, delta: int): (r: map<Team, int>)
    ensures GaugeValue(r, t) == GaugeValue(gauge, t) + delta
    ensures forall u :: u != t ==> GaugeValue(r, u) == GaugeValue(gauge, u)
  {
    gauge[t := GaugeValue(gauge, t) + delta]
  }

  /** Every captive refers to a player of the roster (a pointer is never
      dangling). */
  predicate WellFormed(g: Game)
  {
    forall t, j :: t in g.hunterBase && 0 <= j < |g.hunterBase[t]| ==> g.hunterBase[t][j] < |g.players|
  }

  /** `b` is `a` with only flags changed: same size, and every slot keeps its
      player's id and team. */
  predicate SameRoster(a: seq<Player>, b: seq<Player>)
  {
    |a| == |b| && forall k :: 0 <= k < |a| ==> b[k].id == a[k].id && b[k].team == a[k].team
  }

  /** How many times slot `k` appears over all buckets. */
  function Occurrences(hb: map<Team, seq<Slot>>, k: Slot): nat
  {
    multiset(Captives(hb, Fox))[k] + multiset(Captives(hb, Chicken))[k] + multiset(Captives(hb, Snake))[k]
  }

  /** 1 when `p` is a hunted member of `t`, else 0. */
  function HuntedIndicator(p: Player, t: Team): nat
  {
    if p.hunted && p.team == t then 1 else 0
  }

  /** The number of hunted players of team `t` in a roster. */
  function HuntedCount(ps: seq<Player>, t: Team): nat
  {
    if |ps| == 0 then 0 else HuntedIndicator(ps[0], t) + HuntedCount(ps[1..], t)
  }

  /** `initializeGame`: `numPlayers` players with ids 1, 2, ... assigned
      round-robin over the team order, all free and in base; one empty
      bucket per team; the gauge untouched. */
  function InitializeGame(numPlayers: int, teams: seq<Team>): (g: Game)
    requires IsTeamOrder(teams)
    ensures |g.players| == if numPlayers < 0 then 0 else numPlayers
    ensures forall i :: 0 <= i < |g.players| ==>
              g.players[i].id == i + 1 && g.players[i].team == teams[i % 3]
    ensures forall i :: 0 <= i < |g.players| ==> !g.players[i].hunted && g.players[i].inBase
    ensures forall t :: t in g.hunterBase && g.hunterBase[t] == []
    ensures forall t :: GaugeValue(g.huntedGauge, t) == 0
  {
    TeamOrderIsDistinct(teams);
    var n := if numPlayers < 0 then 0 else numPlayers;
    Game(
      seq(n, i requires 0 <= i < n => Player(i + 1, teams[i % |teams|], false, true)),
      map t | t in teams :: [],
      map[])
  }

  /** The initial assignment is round-robin over three distinct teams: two
      players share a team exactly when their positions agree modulo 3. */
  lemma InitialTeamsAreRoundRobin(numPlayers: int, teams: seq<Team>)
    requires IsTeamOrder(teams)
    ensures var ps := InitializeGame(numPlayers, teams).players;
            forall i, j :: 0 <= i < |ps| && 0 <= j < |ps| ==> (ps[i].team == ps[j].team <==> i % 3 == j % 3)
  {
    TeamOrderIsDistinct(teams);
  }
}
