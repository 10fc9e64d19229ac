/**
 The valid-follower count, obtained by inverting the adjacency that levelling recorded, and
 why that partial adjacency gives the count over the whole graph.
 */
module Score {
  import opened Bfs

  // ---------------------------------------------------------------------------
  // The tally
  // ---------------------------------------------------------------------------

  /** Occurrence `i` in the list of follower `f` counts for target `t`. */
  predicate Counts(levels: map<Uid, nat>, adj: map<Uid, seq<Uid>>, f: Uid, i: nat, t: Uid)
  {
    f in adj && i < |adj[f]| && adj[f][i] == t && f in levels && t in levels && levels[f] < levels[t]
  }

  /** Votes for `t` by the followers in `done` and the first `j` entries of follower `f`. */
  ghost function Votes(levels: map<Uid, nat>, adj: map<Uid, seq<Uid>>, done: set<Uid>, f: Uid, j: nat,
                       t: Uid): (s: set<(Uid, nat)>)
  {
    (set u, i | u in done && u in adj && 0 <= i < |adj[u]| && Counts(levels, adj, u, i, t) :: (u, i)) +
    (set i | f in adj && 0 <= i < j && i < |adj[f]| && Counts(levels, adj, f, i, t) :: (f, i))
  }

  /** `t` is in the result exactly when it has votes, with their number. */
  ghost predicate HasTally(votes: set<(Uid, nat)>, vfc: map<Uid, nat>, t: Uid)
  {
    (t in vfc <==> votes != {}) && (t in vfc ==> vfc[t] == |votes|)
  }

  ghost predicate Tallied(levels: map<Uid, nat>, adj: map<Uid, seq<Uid>>, done: set<Uid>, f: Uid, j: nat,
                          vfc: map<Uid, nat>)
  {
    forall t :: HasTally(Votes(levels, adj, done, f, j, t), vfc, t)
  }

  lemma OneMoreVote(levels: map<Uid, nat>, adj: map<Uid, seq<Uid>>, done: set<Uid>, f: Uid, j: nat, t: Uid)
    requires f in adj && j < |adj[f]| && f !in done
    ensures Votes(levels, adj, done, f, j + 1, t) ==
            Votes(levels, adj, done, f, j, t) + (if Counts(levels, adj, f, j, t) then {(f, j)} else {})
    ensures (f, j) !in Votes(levels, adj, done, f, j, t)
  {
  }

  lemma NoVotesFrom(levels: map<Uid, nat>, adj: map<Uid, seq<Uid>>, done: set<Uid>, f: Uid, t: Uid)
    requires f in adj
    ensures f !in levels ==> Votes(levels, adj, done + {f}, f, 0, t) == Votes(levels, adj, done, f, 0, t)
    ensures Votes(levels, adj, done + {f}, f, 0, t) == Votes(levels, adj, done, f, |adj[f]|, t)
  {
  }

  lemma VotesForgetCurrent(levels: map<Uid, nat>, adj: map<Uid, seq<Uid>>, done: set<Uid>, f: Uid, f': Uid, t: Uid)
    ensures Votes(levels, adj, done, f, 0, t) == Votes(levels, adj, done, f', 0, t)
  {
  }

  lemma TalliedForgets(levels: map<Uid, nat>, adj: map<Uid, seq<Uid>>, done: set<Uid>, f: Uid, f': Uid,
                       vfc: map<Uid, nat>)
    requires Tallied(levels, adj, done, f, 0, vfc)
    ensures Tallied(levels, adj, done, f', 0, vfc)
  {
    forall t ensures HasTally(Votes(levels, adj, done, f', 0, t), vfc, t) {
      VotesForgetCurrent(levels, adj, done, f, f', t);
    }
  }

  /** A follower whose list has been gone through, or who has no level, is done. */
  lemma TalliedCloses(levels: map<Uid, nat>, adj: map<Uid, seq<Uid>>, done: set<Uid>, f: Uid, vfc: map<Uid, nat>)
    requires f in adj && Tallied(levels, adj, done, f, if f in levels then |adj[f]| else 0, vfc)
    ensures Tallied(levels, adj, done + {f}, "", 0, vfc)
  {
    forall t ensures HasTally(Votes(levels, adj, done + {f}, "", 0, t), vfc, t) {
      NoVotesFrom(levels, adj, done, f, t);
      VotesForgetCurrent(levels, adj, done + {f}, "", f, t);
      assert HasTally(Votes(levels, adj, done, f, if f in levels then |adj[f]| else 0, t), vfc, t);
    }
  }

  lemma TallyStep(levels: map<Uid, nat>, adj: map<Uid, seq<Uid>>, done: set<Uid>, f: Uid, j: nat, before: map<Uid, nat>,
                  after: map<Uid, nat>, x: Uid)
    requires f in adj && j < |adj[f]| && f !in done && f in levels
    requires HasTally(Votes(levels, adj, done, f, j, x), before, x)
    requires
      var t := adj[f][j];
      after == if t in levels && levels[f] < levels[t] then before[t := (if t in before then before[t] else 0) + 1]
               else before
    ensures HasTally(Votes(levels, adj, done, f, j + 1, x), after, x)
  {
    OneMoreVote(levels, adj, done, f, j, x);
    var votes := Votes(levels, adj, done, f, j, x);
    if Counts(levels, adj, f, j, x) {
      assert |votes + {(f, j)}| == |votes| + 1;
    }
  }

  /** One more entry of the list. */
  lemma TallyEntry(levels: map<Uid, nat>, adj: map<Uid, seq<Uid>>, done: set<Uid>, f: Uid, j: nat, k: nat,
                   before: map<Uid, nat>, after: map<Uid, nat>)
    requires f in adj && k == j + 1 <= |adj[f]| && f !in done && f in levels && Tallied(levels, adj, done, f, j, before)
    requires
      var t := adj[f][j];
      after == if t in levels && levels[f] < levels[t] then before[t := (if t in before then before[t] else 0) + 1]
               else before
    ensures Tallied(levels, adj, done, f, k, after)
  {
    forall x ensures HasTally(Votes(levels, adj, done, f, k, x), after, x) {
      TallyStep(levels, adj, done, f, j, before, after, x);
    }
  }

  /** Tally one follower's list. */
  method CountFollowees(levels: map<Uid, nat>, adj: map<Uid, seq<Uid>>, f: Uid, vfc: map<Uid, nat>,
                        ghost done: set<Uid>)
    returns (vfc': map<Uid, nat>)
    requires f in adj && f !in done && f in levels && Tallied(levels, adj, done, f, 0, vfc)
    ensures Tallied(levels, adj, done, f, |adj[f]|, vfc')
  {
    vfc' := vfc;
    var followees := adj[f];
    for j := 0 to |followees|
      invariant Tallied(levels, adj, done, f, j, vfc')
    {
      var t := followees[j];
      ghost var before := vfc';
      if t in levels && levels[f] < levels[t] {
        vfc' := vfc'[t := (if t in vfc' then vfc'[t] else 0) + 1];
      }
      TallyEntry(levels, adj, done, f, j, j + 1, before, vfc');
    }
  }

  /** All list entries that count for `t`. */
  ghost function AllVotes(levels: map<Uid, nat>, adj: map<Uid, seq<Uid>>, t: Uid): (s: set<(Uid, nat)>)
    ensures forall v :: v in s <==> Counts(levels, adj, v.0, v.1, t)
  {
    set f, i | f in adj && 0 <= i < |adj[f]| && Counts(levels, adj, f, i, t) :: (f, i)
  }

  ghost predicate IsScore(levels: map<Uid, nat>, adj: map<Uid, seq<Uid>>, vfc: map<Uid, nat>)
  {
    forall t :: HasTally(AllVotes(levels, adj, t), vfc, t)
  }

  lemma VotesAre(levels: map<Uid, nat>, adj: map<Uid, seq<Uid>>, t: Uid)
    ensures Votes(levels, adj, adj.Keys, "", 0, t) == AllVotes(levels, adj, t)
  {
  }

  /** `Score`: each target's count is the number of list entries of strictly shallower followers. */
  method Score(levels: map<Uid, nat>, adj: map<Uid, seq<Uid>>) returns (vfc: map<Uid, nat>)
    ensures IsScore(levels, adj, vfc)
  {
    vfc := map[];
    var todo := adj.Keys;
    ghost var done: set<Uid> := {};
    while todo != {}
      invariant todo <= adj.Keys && done == adj.Keys - todo
      invariant Tallied(levels, adj, done, "", 0, vfc)
      decreases todo
    {
      var f :| f in todo;
      TalliedForgets(levels, adj, done, "", f, vfc);
      if f in levels {
        vfc := CountFollowees(levels, adj, f, vfc, done);
      }
      TalliedCloses(levels, adj, done, f, vfc);
      todo := todo - {f};
      done := done + {f};
    }
    assert done == adj.Keys;
    forall t ensures HasTally(AllVotes(levels, adj, t), vfc, t) {
      VotesAre(levels, adj, t);
      assert HasTally(Votes(levels, adj, adj.Keys, "", 0, t), vfc, t);
    }
  }

  // ---------------------------------------------------------------------------
  // The score is the count over the full graph
  // ---------------------------------------------------------------------------

  /** A valid follower in the full graph: it follows `t` and is strictly closer to the seed. */
  ghost predicate IsValidFollower(g: Graph, seed: Uid, f: Uid, t: Uid)
  {
    t in g(f) && exists df: nat, dt: nat :: Distance(g, seed, f, df) && Distance(g, seed, t, dt) && df < dt
  }

  /** Valid followers of a levelled node sit exactly one level up and were expanded. */
  lemma ValidFollowersAreOneLevelUp(g: Graph, seed: Uid, maxLevel: int, levels: map<Uid, nat>, adj: map<Uid, seq<Uid>>,
                                    f: Uid, t: Uid)
    requires IsLeveling(g, seed, maxLevel, levels, adj) && t in levels && IsValidFollower(g, seed, f, t)
    ensures f in levels && f in adj && levels[f] + 1 == levels[t]
  {
    var df: nat, dt: nat :| Distance(g, seed, f, df) && Distance(g, seed, t, dt) && df < dt;
    DistanceIsUnique(g, seed, t, dt, levels[t]);
    assert f in levels;
    DistanceIsUnique(g, seed, f, df, levels[f]);
    assert Hops(g, seed, t, df + 1);
  }

  /** A vote is a valid follower, and the other way round. */
  lemma VotesAreValidFollowers(g: Graph, seed: Uid, maxLevel: int, levels: map<Uid, nat>, adj: map<Uid, seq<Uid>>,
                               f: Uid, t: Uid)
    requires IsLeveling(g, seed, maxLevel, levels, adj) && t in levels
    ensures IsValidFollower(g, seed, f, t) <==> exists i: nat :: Counts(levels, adj, f, i, t)
  {
    if IsValidFollower(g, seed, f, t) {
      ValidFollowersAreOneLevelUp(g, seed, maxLevel, levels, adj, f, t);
      var i :| 0 <= i < |adj[f]| && adj[f][i] == t;
      assert Counts(levels, adj, f, i, t);
    }
    if i: nat :| Counts(levels, adj, f, i, t) {
      assert Distance(g, seed, f, levels[f]) && Distance(g, seed, t, levels[t]);
      assert adj[f][i] in g(f);
    }
  }

  /** With distinct follows every follower has one vote. */
  lemma {:induction false} CountVotes(votes: set<(Uid, nat)>, followers: set<Uid>)
    requires forall v :: v in votes ==> v.0 in followers
    requires forall f :: f in followers ==> exists v :: v in votes && v.0 == f
    requires forall v, w :: v in votes && w in votes && v.0 == w.0 ==> v == w
    ensures |votes| == |followers|
    decreases |votes|
  {
    if votes != {} {
      var v :| v in votes;
      var rest, others := votes - {v}, followers - {v.0};
      forall f | f in others ensures exists w :: w in rest && w.0 == f {
        var w :| w in votes && w.0 == f;
        assert w in rest;
      }
      CountVotes(rest, others);
    } else {
      assert forall f :: f !in followers;
    }
  }

  /**
   The score computed from the partial adjacency is the count over the whole graph: every
   levelled node except the seed is scored, and its score is its number of valid followers.
   */
  lemma ScoreIsExact(g: Graph, seed: Uid, maxLevel: int, levels: map<Uid, nat>, adj: map<Uid, seq<Uid>>,
                     vfc: map<Uid, nat>, t: Uid, followers: set<Uid>)
    requires IsLeveling(g, seed, maxLevel, levels, adj) && IsScore(levels, adj, vfc)
    requires forall u :: Distinct(g(u))
    requires t in levels && forall f :: f in followers <==> IsValidFollower(g, seed, f, t)
    ensures t in vfc <==> t != seed
    ensures t in vfc ==> vfc[t] == |followers|
  {
    var votes := AllVotes(levels, adj, t);
    assert HasTally(votes, vfc, t);
    VotesCountFollowers(g, seed, maxLevel, levels, adj, t, followers);
    if t == seed {
      SeedHasNoFollowers(g, seed, followers);
    } else {
      SomeoneOneLevelUp(g, seed, maxLevel, levels, adj, t);
      var f :| IsValidFollower(g, seed, f, t);
      assert f in followers;
    }
  }

  lemma SeedHasNoFollowers(g: Graph, seed: Uid, followers: set<Uid>)
    requires forall f :: f in followers ==> IsValidFollower(g, seed, f, seed)
    ensures followers == {}
  {
    forall f ensures f !in followers {
      assert Hops(g, seed, seed, 0);
    }
  }

  lemma VotesCountFollowers(g: Graph, seed: Uid, maxLevel: int, levels: map<Uid, nat>, adj: map<Uid, seq<Uid>>, t: Uid,
                            followers: set<Uid>)
    requires IsLeveling(g, seed, maxLevel, levels, adj) && forall u :: Distinct(g(u))
    requires t in levels && forall f :: f in followers <==> IsValidFollower(g, seed, f, t)
    ensures |AllVotes(levels, adj, t)| == |followers|
  {
    var votes := AllVotes(levels, adj, t);
    forall f ensures f in followers <==> exists i: nat :: Counts(levels, adj, f, i, t) {
      VotesAreValidFollowers(g, seed, maxLevel, levels, adj, f, t);
    }
    forall v | v in votes ensures v.0 in followers { assert Counts(levels, adj, v.0, v.1, t); }
    forall f | f in followers ensures exists v :: v in votes && v.0 == f {
      var i: nat :| Counts(levels, adj, f, i, t);
      assert (f, i) in votes && (f, i).0 == f;
    }
    forall v, w | v in votes && w in votes && v.0 == w.0 ensures v == w {
      assert Counts(levels, adj, v.0, v.1, t) && Counts(levels, adj, w.0, w.1, t);
      SameVote(g(v.0), v.1, w.1);
    }
    CountVotes(votes, followers);
  }

  lemma SameVote(s: seq<Uid>, i: nat, j: nat)
    requires Distinct(s) && i < |s| && j < |s| && s[i] == s[j]
    ensures i == j
  {
  }

  lemma SomeoneOneLevelUp(g: Graph, seed: Uid, maxLevel: int, levels: map<Uid, nat>, adj: map<Uid, seq<Uid>>, t: Uid)
    requires IsLeveling(g, seed, maxLevel, levels, adj) && t in levels
    ensures t != seed ==> exists f :: IsValidFollower(g, seed, f, t)
  {
    if t != seed {
      var d := levels[t];
      assert d > 0;
      var f :| Hops(g, seed, f, d - 1) && t in g(f);
      assert f in levels;
      assert levels[f] <= d - 1;
      assert IsValidFollower(g, seed, f, t);
    }
  }

  /** Nodes that were never levelled are not scored. */
  lemma OnlyLeveledAreScored(levels: map<Uid, nat>, adj: map<Uid, seq<Uid>>, vfc: map<Uid, nat>, t: Uid)
    requires IsScore(levels, adj, vfc) && t in vfc
    ensures t in levels
  {
    assert HasTally(AllVotes(levels, adj, t), vfc, t);
    var v :| v in AllVotes(levels, adj, t);
  }
}
