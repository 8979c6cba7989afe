/**
  The team topology of the tag game: three factions and the fixed prey
  table `hunts` (fox hunts chicken, chicken hunts snake, snake hunts fox).
 */
module Teams {

  /** The three factions. The source names them by the strings "fox",
      "chicken" and "snake"; the table is a constant, so an enumeration
      captures every identifier it can hold. */
  datatype Team = Fox | Chicken | Snake

  /** The `hunts` table: the team whose members `t`'s members may capture. */
  function Prey(t: Team): (p: Team)
    ensures p != t
  {
    match t
    case Fox => Chicken
    case Chicken => Snake
    case Snake => Fox
  }

  /** The inverse of the table: the one team that hunts `t`. */
  function Hunter(t: Team): (h: Team)
    ensures Prey(h) == t
    ensures forall u :: Prey(u) == t ==> u == h
  {
    match t
    case Fox => Snake
    case Chicken => Fox
    case Snake => Chicken
  }

  /** The table is a permutation of the teams made of one cycle of length 3:
      no team is its own prey, no two teams hunt each other, and following
      the table three times comes back to the start. */
  lemma PreyIsThreeCycle(t: Team)
    ensures Prey(t) != t
    ensures Prey(Prey(t)) != t
    ensures Prey(Prey(Prey(t))) == t
    ensures forall u :: Prey(u) == Prey(t) ==> u == t
  {
  }

  /** An order of the teams, as produced by iterating over the keys of the
      `hunts` table: every team exactly once. */
  predicate IsTeamOrder(teams: seq<Team>)
  {
    |teams| == 3 && Fox in teams && Chicken in teams && Snake in teams
  }

  /** A team order lists every team, each at one position only. */
  lemma {:induction false} TeamOrderIsDistinct(teams: seq<Team>)
    requires IsTeamOrder(teams)
    ensures forall t :: t in teams
    ensures forall i, j :: 0 <= i < |teams| && 0 <= j < |teams| && teams[i] == teams[j] ==> i == j
  {
    forall t: Team ensures t in teams {
      match t
      case Fox =>
      case Chicken =>
      case Snake =>
    }
  }
}
