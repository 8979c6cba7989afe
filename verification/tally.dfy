/**
  Counting facts relating the roster, the release loops and the hunted
  gauge: what one flag change, a whole release loop, and the treason loop's
  decrements do to the per-team counts.
 */
module Tally {
  import opened Teams
  import opened GameState
  import opened Captures

  /** No slot appears twice in `ks`. */
  predicate NoDuplicates(ks: seq<Slot>)
  {
    forall k :: k in ks ==> multiset(ks)[k] <= 1
  }

  /** The number of entries of `ks` whose player belongs to team `t`. */
  function TeamCount(ps: seq<Player>, ks: seq<Slot>, t: Team): nat
    requires InRoster(ps, ks)
    decreases |ks|
  {
    if ks == [] then 0
    else (if ps[ks[0]].team == t then 1 else 0) + TeamCount(ps, ks[1..], t)
  }

  /** Replacing one roster entry changes a team's hunted count by the
      difference of the two entries' contributions. */
  lemma {:induction false} HuntedCountUpdate(ps: seq<Player>, k: nat, p: Player, t: Team)
    requires k < |ps|
    ensures HuntedCount(ps[k := p], t) == HuntedCount(ps, t) - HuntedIndicator(ps[k], t) + HuntedIndicator(p, t)
    decreases k
  {
    if k == 0 {
      assert ps[k := p][1..] == ps[1..];
    } else {
      HuntedCountUpdate(ps[1..], k - 1, p, t);
      assert ps[k := p][1..] == ps[1..][k - 1 := p];
    }
  }

  /** A roster with nobody hunted counts zero for every team. */
  lemma {:induction false} HuntedCountOfFreeRoster(ps: seq<Player>, t: Team)
    requires forall i :: 0 <= i < |ps| ==> !ps[i].hunted
    ensures HuntedCount(ps, t) == 0
    decreases |ps|
  {
    if |ps| > 0 {
      HuntedCountOfFreeRoster(ps[1..], t);
    }
  }

  /** The team count only looks at the teams of the roster. */
  lemma {:induction false} TeamCountFrame(a: seq<Player>, b: seq<Player>, ks: seq<Slot>, t: Team)
    requires |a| == |b| && InRoster(a, ks)
    requires forall i :: 0 <= i < |a| ==> a[i].team == b[i].team
    ensures TeamCount(a, ks, t) == TeamCount(b, ks, t)
    decreases |ks|
  {
    if ks != [] {
      TeamCountFrame(a, b, ks[1..], t);
    }
  }

  /** When every entry belongs to team `c`, the count is `|ks|` for `c` and
      zero for the other teams. */
  lemma {:induction false} TeamCountOfOneTeam(ps: seq<Player>, ks: seq<Slot>, c: Team, t: Team)
    requires InRoster(ps, ks)
    requires forall j :: 0 <= j < |ks| ==> ps[ks[j]].team == c
    ensures TeamCount(ps, ks, t) == if t == c then |ks| else 0
    decreases |ks|
  {
    if ks != [] {
      TeamCountOfOneTeam(ps, ks[1..], c, t);
    }
  }

  /** The tail of a duplicate-free list is duplicate-free and misses the
      head. */
  lemma {:induction false} NoDuplicatesTail(ks: seq<Slot>)
    requires ks != [] && NoDuplicates(ks)
    ensures NoDuplicates(ks[1..])
    ensures forall j :: 0 <= j < |ks| - 1 ==> ks[1..][j] != ks[0]
  {
    var k, rest := ks[0], ks[1..];
    assert ks == [k] + rest;
    assert multiset(ks) == multiset{k} + multiset(rest);
    forall x | x in rest ensures multiset(rest)[x] <= 1 {
      assert multiset(rest)[x] <= multiset(ks)[x];
    }
    assert k !in rest by {
      assert multiset(ks)[k] <= 1;
    }
  }

  /** Releasing distinct hunted captives lowers each team's hunted count by
      the number of captives of that team. */
  lemma {:induction false} ReleaseAllCount(ps: seq<Player>, ks: seq<Slot>, t: Team)
    requires InRoster(ps, ks) && NoDuplicates(ks)
    requires forall j :: 0 <= j < |ks| ==> ps[ks[j]].hunted
    ensures HuntedCount(ReleaseAll(ps, ks), t) == HuntedCount(ps, t) - TeamCount(ps, ks, t)
    decreases |ks|
  {
    if ks != [] {
      var k := ks[0];
      var rest := ks[1..];
      var ps1 := ps[k := ps[k].(hunted := false)];
      NoDuplicatesTail(ks);
      HuntedCountUpdate(ps, k, ps[k].(hunted := false), t);
      ReleaseAllCount(ps1, rest, t);
      TeamCountFrame(ps1, ps, rest, t);
    }
  }

  /** The treason loop lowers each team's gauge by the number of released
      captives of that team. */
  lemma {:induction false} DropEachValue(gauge: map<Team, int>, ps: seq<Player>, ks: seq<Slot>, t: Team)
    requires InRoster(ps, ks)
    ensures GaugeValue(DropEach(gauge, ps, ks), t) == GaugeValue(gauge, t) - TeamCount(ps, ks, t)
    decreases |ks|
  {
    if ks != [] {
      DropEachValue(Bump(gauge, ps[ks[0]].team, -1), ps, ks[1..], t);
    }
  }

}
