# play-tag game state, modelled in Dafny

This project models the game-state machine of the play-tag simulation. Players belong to
three teams in a predator/prey cycle: fox hunts chicken, chicken hunts snake, snake hunts
fox. Each player repeatedly leaves or returns to its base, captures an eligible enemy,
rescues captured teammates, or commits treason. Treason frees the enemies its own team
holds, and a player commits it when no target is left.

The source runs one goroutine per player. Every iteration of a player's loop runs under
one global mutex, so the model treats an iteration as one atomic step over an immutable
state:

- `GameState.Game` holds the roster (`players`), the capture pool (`hunterBase`: team to
  the roster slots its members hold captive) and the "currently hunted" gauge per team
  (`huntedGauge`).
- Buckets hold roster positions, not pointers. Clearing `hunted` through a bucket
  therefore updates the roster entry, as the source's pointer aliasing does.
- `Agent.Play` is one loop iteration. The four random draws (leave base, rescue, return
  to base, hunt) are boolean inputs, so the first-match branch order is a plain
  conditional.
- `Agent.Run` applies a sequence of iterations. The lock serialises them, in an order
  the source leaves to the scheduler.
- The team order (`teams`), which the source takes from Go map iteration, is a
  parameter. It may be any order of the three teams.

The central result is `Safety.ReachableStatesSatisfyInvariant`. In every state reachable
from `initializeGame`:

- a player is hunted iff it sits in exactly one bucket (and never in two);
- a hunted player is never in base;
- bucket `t` holds only players of `t`'s prey;
- player ids are 1..n in roster order;
- the hunted gauge of each team equals the number of its hunted players.

The gauge equality needs the prey fact. `rescueTeammates` decrements the gauge under the
*rescuer's* team label. That is correct only because the bucket it empties holds the
rescuer's teammates, which `Safety.RescuedPlayersAreTeammates` proves.

Files: `teams.dfy` (prey table), `state.dfy` (data model, initial state), `captures.dfy`
(target selector, hunt, rescue, treason, slice removal), `agent.dfy` (one loop iteration,
runs), `tally.dfy` (counting facts for the gauge), `invariant.dfy` (the invariant and its
preservation), `scenario.dfy` (a worked three-player run). The code starts every player in base
(main.go:142), so the scenario begins with leave-base draws.

## Model

| member | source | states |
|---|---|---|
| Teams.Prey | main.go:97-101 | The `hunts` table never maps a team to itself. |
| Teams.Hunter | main.go:97-101 | Each team is the prey of exactly one team, so the table is a bijection. |
| Teams.PreyIsThreeCycle | main.go:97-101 | The table has no fixed point and no 2-cycle, and following it three times returns to the start. |
| Teams.TeamOrderIsDistinct | main.go:103-105 | The team list built from the table's keys contains every team, each at exactly one position. |
| GameState.InitializeGame | main.go:135-156 | Creates players with ids 1..n (none for n <= 0), all free and in base; player i gets team `teams[i mod 3]`. Every team gets an empty bucket, and the gauge reads 0 for every team. |
| GameState.InitialTeamsAreRoundRobin | main.go:137-140 | Since the team order lists three distinct teams, two players share a team iff their positions agree mod 3. |
| Captures.FindTarget | main.go:209-216 | Returns the first roster player that is of the caller's prey team, not hunted and not in base. Returns none iff no roster player is eligible. |
| Captures.Hunt | main.go:189-195 | The target becomes hunted and is appended to the hunter team's bucket. The gauge of the target's team goes up by one. Every other player, bucket and gauge label is unchanged. |
| Captures.ReleaseAll | main.go:222-227 | The release loop clears `hunted` exactly for the players listed in the bucket and leaves everyone else untouched. |
| Captures.RescueTeammates | main.go:219-233 | Empties exactly the buckets keyed by a team whose prey is the rescuer's team, and keeps the other buckets and the key set. Clears `hunted` exactly for players held in an emptied bucket. Lowers the rescuer's team gauge by the number freed. A rescue that frees nobody leaves the gauge untouched. |
| Captures.CommitTreason | main.go:236-247 | Empties the caller's own team bucket and leaves the other buckets as they were. Clears `hunted` exactly for the former members of that bucket. |
| Captures.RemovePlayerFromSlice | main.go:250-257 | Removes only the first occurrence of the target and keeps the rest in order (as a multiset, the input minus one copy of the target). Returns the input unchanged when the target is absent. |
| Agent.Play | main.go:173-201 | One iteration keeps every bucket entry a roster player, keeps the roster's size, ids and teams, and never removes a bucket. |
| Agent.SetInBaseChangesOneFlag | main.go:174-188 | Leaving base (line 175) and returning to base (line 187) set only the iterating player's base flag. Its hunted flag, every other player, the buckets and the gauge stay as they were. |
| Agent.PlayKeepsOtherBaseFlags | main.go:173-199 | An iteration changes no other player's base flag. |
| Agent.PlayReturnsOnlyFreePlayers | main.go:179-188 | A player out of base returns to base only while it is not hunted. |
| Agent.PlayCapturesOnlyEligible | main.go:179-192 | A player becomes hunted only if it was of the iterating player's prey team, free and out of base. |
| Agent.Run | main.go:159-162 | Any serialised sequence of iterations keeps the same structural facts as one iteration. |
| Tally.ReleaseAllCount | main.go:222-227 | Releasing distinct hunted captives lowers each team's hunted count by the number of captives of that team. |
| Tally.DropEachValue | main.go:237-242 | `Captures.DropEach` is the treason loop's one decrement per freed captive, under that captive's team. Its total lowers each team's gauge by the number of freed captives of that team. |
| Safety.InitialStateSatisfiesInvariant | main.go:135-156 | The initial state satisfies the invariant. |
| Safety.SetInBasePreservesInvariant | main.go:174-188 | Leaving base, and returning to base while free, keep the invariant. |
| Safety.HuntKeepsBookkeeping | main.go:189-192 | Capturing a free target makes it sit in exactly one bucket. |
| Safety.HuntKeepsPrey | main.go:189-192 | Capturing a member of the prey team keeps every bucket holding only prey. |
| Safety.HuntKeepsGauge | main.go:191-194 | After a hunt the gauge still equals the count of hunted players per team. |
| Safety.HuntPreservesInvariant | main.go:189-195 | Hunting a target that the selector could return keeps the whole invariant. |
| Safety.RescuePreservesInvariant | main.go:219-233 | A rescue keeps the invariant, including the gauge, although it decrements under the rescuer's label. |
| Safety.RescueKeepsGauge | main.go:221-229 | After a rescue each team's gauge still equals its number of hunted players, although every decrement is under the rescuer's label. |
| Safety.RescuedPlayersAreTeammates | main.go:221-226 | Every player a rescue frees was hunted and is a teammate of the rescuer, which justifies the rescuer-team gauge label. |
| Safety.TreasonPreservesInvariant | main.go:236-247 | Treason keeps the invariant. |
| Safety.TreasonKeepsGauge | main.go:237-245 | After treason each team's gauge still equals its number of hunted players. |
| Safety.TreasonFreesPrey | main.go:237-241 | Every player freed by treason was hunted and belongs to the traitor's prey team. |
| Safety.PlayPreservesInvariant | main.go:173-201 | Every loop iteration, whatever the draws, keeps the invariant. |
| Safety.InvariantIsInductive | main.go:171-205 | The invariant is inductive for the step relation "some player runs one iteration with some draws". |
| Safety.RunPreservesInvariant | main.go:159-162 | Any interleaving of iterations keeps the invariant. |
| Safety.ReachableStatesSatisfyInvariant | main.go:135-205 | Every state reachable from `initializeGame` satisfies the invariant: hunted iff in exactly one bucket, hunted never in base, gauge equals the hunted count. |
| Safety.HuntedPlayerIsIdle | main.go:174-200 | Under the invariant, an iteration by a hunted player changes nothing, because both guards are false. |
| Safety.OwnBucketEmptiedOnlyByTreason | main.go:181-199 | A player's iteration empties its own team's non-empty bucket only with no rescue or return-to-base draw, and only when the selector finds no target. |
| Scenario.StartState | main.go:135-156 | Three players over the order fox, chicken, snake start as ids 1, 2, 3, in base, with empty buckets. |
| Scenario.ChickenLeavesBase | main.go:174-199 | A player whose only prey is in base finds no target, and its treason on an empty bucket frees nobody. |
| Scenario.FoxHuntsChicken | main.go:174-195 | The fox player leaves base and captures the chicken player into the fox bucket. |
| Scenario.SnakeRescuesNobody | main.go:183-184 | The snake player's rescue looks only at the bucket of the team hunting snakes (chicken), which is empty, so nobody is freed. |
| Scenario.CaptiveIsIdle | main.go:174-200 | The captured chicken player's iteration changes nothing. |
| Scenario.FoxCommitsTreason | main.go:196-198 | With its only prey hunted, the fox player commits treason and frees the chicken player. |

## Left out

- Goroutines, `sync.Mutex` and both `time.Sleep` calls (main.go:159-162, 173, 195, 201, 204) are left out. The lock only makes each iteration atomic, which `Agent.Run` represents by applying iterations one at a time. The sleep inside the lock affects timing only.
- The `math/rand` draws and the constants `huntChance`, `rescueChance` and `baseChance` (main.go:18-20) are left out. They are floating-point probabilities; `Agent.Draws` takes each draw's outcome as a boolean.
- The Prometheus counters for hunted, rescued and treason events, the in-base gauge, metric registration and the `/metrics` server (main.go:26-76, 121-125) are left out as foreign library calls and I/O. Only the hunted gauge is mirrored, as a plain map in `GameState.Game`.
- Signal handling (main.go:127-132), `main`'s seeding and `runGame`'s console output, and all `fmt.Printf` calls are process I/O and are left out.
- The fields `teamMates` and `notifyChan` (main.go:84-85, 143) take no part in the logic and are left out.
- Team identifiers are the strings "fox", "chicken" and "snake" in the source. They are an enumeration here because the table is a constant. For the same reason, the lookup of a missing key in `hunts` (which yields "") cannot occur.
- Captures.RescueTeammates: it ranges over the buckets in Go map order. The model reads the one bucket keyed by `Hunter(team)`, the only key whose prey is the rescuer's team. Its contract still states the general "every bucket whose key's prey is the rescuer's team" form.
- GameState.InitializeGame requires a valid team order (all three teams, once each). The source builds `teams` from the table's keys, so this always holds. With an empty team list the source would divide by zero.
- Captures.RemovePlayerFromSlice: Go's `append(players[:i], players[i+1:]...)` also shifts the caller's backing array in place. The model returns only the resulting slice. The game never calls this helper.
- The code never validates the prey table, because it is a constant (main.go:97-101). The model proves instead that the table is a 3-cycle (`Teams.PreyIsThreeCycle`).
