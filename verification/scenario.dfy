/**
  A worked run with one player per team (ids 1 fox, 2 chicken, 3 snake):
  the fox player captures the chicken player, a rescue by the snake player
  frees nobody, the captive's own turn is idle, and the fox player, left
  without targets, commits treason and frees the chicken player.
 */
module Scenario {
  import opened Teams
  import opened GameState
  import opened Captures
  import opened Agent

  const NoDraw := Draws(false, false, false, false)

  const Empty: map<Team, seq<Slot>> := map[Fox := [], Chicken := [], Snake := []]

  /** Everyone in base. */
  const S0 := Game(
    [Player(1, Fox, false, true), Player(2, Chicken, false, true), Player(3, Snake, false, true)],
    Empty, map[])

  /** The chicken player is out of base. */
  const S1 := Game(
    [Player(1, Fox, false, true), Player(2, Chicken, false, false), Player(3, Snake, false, true)],
    Empty, map[])

  /** The fox player is out of base and holds the chicken player. */
  const S2 := Game(
    [Player(1, Fox, false, false), Player(2, Chicken, true, false), Player(3, Snake, false, true)],
    Empty[Fox := [1]], map[Chicken := 1])

  /** The snake player is out of base too. */
  const S3 := Game(
    [Player(1, Fox, false, false), Player(2, Chicken, true, false), Player(3, Snake, false, false)],
    Empty[Fox := [1]], map[Chicken := 1])

  /** The chicken player is free again and the fox bucket empty. */
  const S4 := Game(
    [Player(1, Fox, false, false), Player(2, Chicken, false, false), Player(3, Snake, false, false)],
    Empty, map[Chicken := 0])

  /** Three players over the order fox, chicken, snake start as S0. */
  lemma StartState()
    ensures InitializeGame(3, [Fox, Chicken, Snake]) == S0
  {
  }

  /** The chicken player leaves base; its prey, the snake player, is in base,
      so it finds no target and its treason frees nobody. */
  lemma ChickenLeavesBase()
    ensures Play(S0, 1, Draws(true, false, false, false)) == S1
  {
  }

  /** The fox player leaves base and captures the chicken player. */
  lemma FoxHuntsChicken()
    ensures Play(S1, 0, Draws(true, false, false, true)) == S2
  {
    var g1 := SetInBase(S1, 0, false);
    assert FindTarget(g1.players, g1.players[0]) == Some(1);
    var g2 := Hunt(g1, 0, 1);
    assert Captives(g1.hunterBase, Fox) + [1] == [1];
    assert g2.players == S2.players;
    assert g2.hunterBase == S2.hunterBase;
    assert g2.huntedGauge == S2.huntedGauge;
  }

  /** The snake player leaves base and rescues: the bucket keyed by the team
      hunting snakes (chicken) is empty, so nobody is freed and the gauge is
      not touched. */
  lemma SnakeRescuesNobody()
    ensures Play(S2, 2, Draws(true, true, false, false)) == S3
  {
  }

  /** The captured chicken player's turn changes nothing. */
  lemma CaptiveIsIdle()
    ensures Play(S3, 1, NoDraw) == S3
  {
  }

  /** The fox player finds no free chicken and commits treason, freeing the
      chicken player. */
  lemma FoxCommitsTreason()
    ensures Play(S3, 0, NoDraw) == S4
  {
  }
}
