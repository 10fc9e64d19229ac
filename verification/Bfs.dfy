/** Frontier BFS over an injected expander: every node at its shortest follow distance. */
module Bfs {

  type Uid = string

  datatype FrontierResult = FrontierResult(uid: Uid, follows: seq<Uid>)

  datatype Expansion = Expanded(results: seq<FrontierResult>) | ExpandError

  // ---------------------------------------------------------------------------
  // The follow graph and its distances
  // ---------------------------------------------------------------------------

  /** The follows of every node, in the order the server lists them. */
  type Graph = Uid -> seq<Uid>

  /** There is a follow path of exactly `n` hops from the seed. */
  ghost predicate Hops(g: Graph, seed: Uid, v: Uid, n: nat)
    decreases n
  {
    if n == 0 then v == seed else exists u :: Hops(g, seed, u, n - 1) && v in g(u)
  }

  /** `d` is the shortest follow distance of `v`. */
  ghost predicate Distance(g: Graph, seed: Uid, v: Uid, d: nat)
  {
    Hops(g, seed, v, d) && forall m: nat :: m < d ==> !Hops(g, seed, v, m)
  }

  lemma DistanceIsUnique(g: Graph, seed: Uid, v: Uid, d: nat, e: nat)
    requires Distance(g, seed, v, d) && Distance(g, seed, v, e)
    ensures d == e
  {
  }

  ghost predicate Distinct(s: seq<Uid>)
  {
    forall i, j :: 0 <= i < j < |s| ==> s[i] != s[j]
  }

  /** The expander lists, for every node of the frontier that follows somebody, its follows once. */
  ghost predicate HonestReply(g: Graph, frontier: seq<Uid>, results: seq<FrontierResult>)
  {
    && (forall i :: 0 <= i < |results| ==> results[i].uid in frontier && results[i].follows == g(results[i].uid))
    && (forall i, j :: 0 <= i < j < |results| ==> results[i].uid != results[j].uid)
    && (forall u :: u in frontier && g(u) != [] ==> exists i :: 0 <= i < |results| && results[i].uid == u)
  }

  ghost predicate HonestExpander(g: Graph, expand: seq<Uid> -> Expansion)
  {
    forall frontier :: expand(frontier).Expanded? ==> HonestReply(g, frontier, expand(frontier).results)
  }

  ghost predicate Closed(g: Graph, nodes: set<Uid>)
  {
    forall u, v :: u in nodes && v in g(u) ==> v in nodes
  }

  // ---------------------------------------------------------------------------
  // One level
  // ---------------------------------------------------------------------------

  /** `v` is among the follows of the first `i` results and the first `j` follows of result `i`. */
  ghost predicate Listed(results: seq<FrontierResult>, i: nat, j: nat, v: Uid)
  {
    || (exists r :: 0 <= r < i && r < |results| && v in results[r].follows)
    || (i < |results| && exists k :: 0 <= k < j && k < |results[i].follows| && results[i].follows[k] == v)
  }

  /** Nodes met so far: the old ones keep their level, the new ones are one level deeper and form `next`. */
  ghost predicate LevelInv(levels0: map<Uid, nat>, results: seq<FrontierResult>, i: nat, j: nat, nextLevel: nat,
                           levels: map<Uid, nat>, next: seq<Uid>)
  {
    && (forall v :: v in levels0 ==> v in levels && levels[v] == levels0[v])
    && (forall v :: v in levels && v !in levels0 ==> levels[v] == nextLevel)
    && (forall v :: v in levels <==> v in levels0 || Listed(results, i, j, v))
    && Distinct(next)
    && (forall v :: v in next <==> v in levels && v !in levels0)
  }

  lemma ListOne(levels0: map<Uid, nat>, results: seq<FrontierResult>, i: nat, j: nat, nextLevel: nat,
                levels: map<Uid, nat>, next: seq<Uid>)
    requires LevelInv(levels0, results, i, j, nextLevel, levels, next) && i < |results| && j < |results[i].follows|
    ensures
      var v := results[i].follows[j];
      if v in levels then LevelInv(levels0, results, i, j + 1, nextLevel, levels, next)
      else LevelInv(levels0, results, i, j + 1, nextLevel, levels[v := nextLevel], next + [v])
  {
  }

  lemma ListNextResult(levels0: map<Uid, nat>, results: seq<FrontierResult>, i: nat, nextLevel: nat,
                       levels: map<Uid, nat>, next: seq<Uid>)
    requires i < |results| && LevelInv(levels0, results, i, |results[i].follows|, nextLevel, levels, next)
    ensures LevelInv(levels0, results, i + 1, 0, nextLevel, levels, next)
  {
  }

  /** What the recorded adjacency is after `i` results: old lists, and the non-empty new ones in full. */
  ghost predicate AdjacencyInv(adj0: map<Uid, seq<Uid>>, results: seq<FrontierResult>, i: nat, adj: map<Uid, seq<Uid>>)
  {
    && (forall u :: u in adj0 ==> u in adj && adj[u] == adj0[u])
    && (forall u :: u in adj && u !in adj0 ==>
          exists r ::
            0 <= r < i && r < |results| && results[r].uid == u && adj[u] == results[r].follows && adj[u] != [])
    && (forall r :: 0 <= r < i && r < |results| && results[r].follows != [] ==> results[r].uid in adj)
  }

  /** Append a node's follows edge by edge, levelling the unseen ones. */
  method RecordFollows(results: seq<FrontierResult>, i: nat, nextLevel: nat, levels: map<Uid, nat>,
                       adj: map<Uid, seq<Uid>>, next: seq<Uid>, ghost levels0: map<Uid, nat>)
    returns (levels': map<Uid, nat>, adj': map<Uid, seq<Uid>>, next': seq<Uid>)
    requires i < |results| && results[i].uid !in adj
    requires LevelInv(levels0, results, i, 0, nextLevel, levels, next)
    ensures LevelInv(levels0, results, i + 1, 0, nextLevel, levels', next')
    ensures adj' == if results[i].follows == [] then adj else adj[results[i].uid := results[i].follows]
  {
    levels', adj', next' := levels, adj, next;
    var r := results[i];
    for j := 0 to |r.follows|
      invariant LevelInv(levels0, results, i, j, nextLevel, levels', next')
      invariant adj' == if j == 0 then adj else adj[r.uid := r.follows[..j]]
    {
      var v := r.follows[j];
      assert r.follows[..j + 1] == r.follows[..j] + [v];
      adj' := adj'[r.uid := (if r.uid in adj' then adj'[r.uid] else []) + [v]];
      ListOne(levels0, results, i, j, nextLevel, levels', next');
      if v !in levels' {
        levels' := levels'[v := nextLevel];
        next' := next' + [v];
      }
    }
    assert r.follows[..|r.follows|] == r.follows;
    ListNextResult(levels0, results, i, nextLevel, levels', next');
  }

  lemma AdjacencyStep(adj0: map<Uid, seq<Uid>>, results: seq<FrontierResult>, i: nat, adj: map<Uid, seq<Uid>>,
                      adj': map<Uid, seq<Uid>>)
    requires i < |results| && AdjacencyInv(adj0, results, i, adj) && results[i].uid !in adj
    requires adj' == if results[i].follows == [] then adj else adj[results[i].uid := results[i].follows]
    ensures AdjacencyInv(adj0, results, i + 1, adj')
  {
  }

  method RecordLevel(results: seq<FrontierResult>, nextLevel: nat, levels: map<Uid, nat>, adj: map<Uid, seq<Uid>>)
    returns (levels': map<Uid, nat>, adj': map<Uid, seq<Uid>>, next: seq<Uid>)
    requires forall i, j :: 0 <= i < j < |results| ==> results[i].uid != results[j].uid
    requires forall i :: 0 <= i < |results| ==> results[i].uid !in adj
    ensures LevelInv(levels, results, |results|, 0, nextLevel, levels', next)
    ensures AdjacencyInv(adj, results, |results|, adj')
  {
    levels', adj', next := levels, adj, [];
    for i := 0 to |results|
      invariant LevelInv(levels, results, i, 0, nextLevel, levels', next)
      invariant AdjacencyInv(adj, results, i, adj')
    {
      assert results[i].uid !in adj';
      ghost var before := adj';
      levels', adj', next := RecordFollows(results, i, nextLevel, levels', adj', next, levels);
      AdjacencyStep(adj, results, i, before, adj');
    }
  }

  // ---------------------------------------------------------------------------
  // Level
  // ---------------------------------------------------------------------------

  /** Up to depth `n` the levelling is exact, and the frontier is the deepest level. */
  ghost predicate Exact(g: Graph, seed: Uid, n: nat, levels: map<Uid, nat>, frontier: seq<Uid>)
  {
    && (forall v :: v in levels ==> levels[v] <= n && Distance(g, seed, v, levels[v]))
    && (forall v, d: nat :: d <= n && Hops(g, seed, v, d) ==> v in levels)
    && Distinct(frontier)
    && (forall v :: v in frontier <==> v in levels && levels[v] == n)
  }

  /** The recorded adjacency is the out-edges of the nodes above depth `n`. */
  ghost predicate Recorded(g: Graph, n: nat, levels: map<Uid, nat>, adj: map<Uid, seq<Uid>>)
  {
    && (forall u :: u in adj <==> u in levels && levels[u] < n && g(u) != [])
    && (forall u :: u in adj ==> adj[u] == g(u))
  }

  /** The nodes first listed when the frontier is expanded are those at the next distance. */
  lemma NextLevelIsExact(g: Graph, seed: Uid, n: nat, levels: map<Uid, nat>, frontier: seq<Uid>,
                         results: seq<FrontierResult>, levels': map<Uid, nat>, next: seq<Uid>)
    requires Exact(g, seed, n, levels, frontier) && HonestReply(g, frontier, results)
    requires LevelInv(levels, results, |results|, 0, n + 1, levels', next)
    ensures Exact(g, seed, n + 1, levels', next)
  {
    forall v | v in levels' && v !in levels ensures Distance(g, seed, v, n + 1) {
      assert Listed(results, |results|, 0, v);
      NewNodeIsOneDeeper(g, seed, n, levels, frontier, results, v);
    }
    forall v, d: nat | d <= n + 1 && Hops(g, seed, v, d) ensures v in levels' {
      if d == n + 1 {
        var u :| Hops(g, seed, u, n) && v in g(u);
        ReachedFromLevels(g, seed, n, levels, frontier, results, u, v);
      }
    }
  }

  lemma NewNodeIsOneDeeper(g: Graph, seed: Uid, n: nat, levels: map<Uid, nat>, frontier: seq<Uid>,
                           results: seq<FrontierResult>, v: Uid)
    requires Exact(g, seed, n, levels, frontier) && HonestReply(g, frontier, results)
    requires v !in levels && Listed(results, |results|, 0, v)
    ensures Distance(g, seed, v, n + 1)
  {
  }

  lemma ReachedFromLevels(g: Graph, seed: Uid, n: nat, levels: map<Uid, nat>, frontier: seq<Uid>,
                          results: seq<FrontierResult>, u: Uid, v: Uid)
    requires Exact(g, seed, n, levels, frontier) && HonestReply(g, frontier, results)
    requires Hops(g, seed, u, n) && v in g(u)
    ensures v in levels || Listed(results, |results|, 0, v)
  {
    assert u in levels;
    if levels[u] < n {
      assert Hops(g, seed, v, levels[u] + 1);
    } else {
      assert u in frontier;
      var r :| 0 <= r < |results| && results[r].uid == u;
      assert v in results[r].follows;
    }
  }

  lemma NextLevelIsRecorded(g: Graph, n: nat, levels: map<Uid, nat>, adj: map<Uid, seq<Uid>>, frontier: seq<Uid>,
                            results: seq<FrontierResult>, levels': map<Uid, nat>, next: seq<Uid>,
                            adj': map<Uid, seq<Uid>>)
    requires Recorded(g, n, levels, adj) && HonestReply(g, frontier, results)
    requires forall v :: v in frontier <==> v in levels && levels[v] == n
    requires forall v :: v in levels ==> levels[v] <= n
    requires LevelInv(levels, results, |results|, 0, n + 1, levels', next) &&
             AdjacencyInv(adj, results, |results|, adj')
    ensures Recorded(g, n + 1, levels', adj')
  {
  }

  /** An empty frontier means everything reachable has been levelled. */
  lemma {:induction false} EmptyFrontierIsEverything(g: Graph, seed: Uid, n: nat, levels: map<Uid, nat>, v: Uid, d: nat)
    requires Exact(g, seed, n, levels, []) && Hops(g, seed, v, d)
    ensures v in levels
    decreases d
  {
    if d > n {
      var u :| Hops(g, seed, u, d - 1) && v in g(u);
      EmptyFrontierIsEverything(g, seed, n, levels, u, d - 1);
      assert u !in [];
      assert levels[u] < n && Hops(g, seed, v, levels[u] + 1);
    }
  }

  ghost predicate WithinCap(maxLevel: int, d: nat)
  {
    maxLevel > 0 ==> d <= maxLevel
  }

  datatype Leveling = Leveled(levels: map<Uid, nat>, adjacency: map<Uid, seq<Uid>>) | LevelError

  /** Each node within the cap at its shortest distance, nothing else, and the out-edges of the expanded ones. */
  ghost predicate IsLeveling(g: Graph, seed: Uid, maxLevel: int, levels: map<Uid, nat>, adj: map<Uid, seq<Uid>>)
  {
    && (forall v :: v in levels ==> Distance(g, seed, v, levels[v]) && WithinCap(maxLevel, levels[v]))
    && (forall v, d: nat :: Hops(g, seed, v, d) && WithinCap(maxLevel, d) ==> v in levels)
    && (forall u :: u in adj <==> u in levels && g(u) != [] && (maxLevel > 0 ==> levels[u] < maxLevel))
    && (forall u :: u in adj ==> adj[u] == g(u))
  }

  /** `Level`: for any finite follow graph, cycles included, and any cap. */
  method Level(ghost g: Graph, seed: Uid, expand: seq<Uid> -> Expansion, maxLevel: int, ghost nodes: set<Uid>)
    returns (r: Leveling)
    requires HonestExpander(g, expand) && seed in nodes && Closed(g, nodes)
    ensures r.Leveled? ==> IsLeveling(g, seed, maxLevel, r.levels, r.adjacency)
    ensures (forall f :: expand(f).Expanded?) ==> r.Leveled?
  {
    var levels: map<Uid, nat> := map[seed := 0];
    var adj: map<Uid, seq<Uid>> := map[];
    var frontier, current := [seed], 0;
    assert Exact(g, seed, 0, levels, frontier) by { assert Hops(g, seed, seed, 0); }
    while |frontier| > 0
      invariant Exact(g, seed, current, levels, frontier) && Recorded(g, current, levels, adj)
      invariant levels.Keys <= nodes && (maxLevel > 0 ==> current <= maxLevel)
      decreases nodes - levels.Keys, |frontier|
    {
      if maxLevel > 0 && current >= maxLevel {
        break;
      }
      var reply := expand(frontier);
      if reply.ExpandError? {
        return LevelError;
      }
      var results := reply.results;
      var levels', adj', next := RecordLevel(results, current + 1, levels, adj);
      NextLevelIsExact(g, seed, current, levels, frontier, results, levels', next);
      NextLevelIsRecorded(g, current, levels, adj, frontier, results, levels', next, adj');
      StaysInside(g, nodes, levels, frontier, results, levels', current + 1, next);
      levels, adj, frontier, current := levels', adj', next, current + 1;
    }
    LevelingIsDone(g, seed, maxLevel, current, levels, adj, frontier);
    r := Leveled(levels, adj);
  }

  lemma StaysInside(g: Graph, nodes: set<Uid>, levels: map<Uid, nat>, frontier: seq<Uid>, results: seq<FrontierResult>,
                    levels': map<Uid, nat>, nextLevel: nat, next: seq<Uid>)
    requires Closed(g, nodes) && levels.Keys <= nodes && (forall v :: v in frontier ==> v in levels)
    requires HonestReply(g, frontier, results) && LevelInv(levels, results, |results|, 0, nextLevel, levels', next)
    ensures levels'.Keys <= nodes && levels.Keys <= levels'.Keys
    ensures next != [] ==> levels.Keys < levels'.Keys
    ensures next == [] ==> levels'.Keys == levels.Keys
  {
    forall v | v in levels' && v !in levels ensures v in nodes {
      assert Listed(results, |results|, 0, v);
      var r :| 0 <= r < |results| && v in results[r].follows;
      assert results[r].uid in levels.Keys;
    }
    if next != [] {
      assert next[0] in next;
      assert next[0] in levels'.Keys && next[0] !in levels.Keys;
    }
  }

  lemma LevelingIsDone(g: Graph, seed: Uid, maxLevel: int, n: nat, levels: map<Uid, nat>, adj: map<Uid, seq<Uid>>,
                       frontier: seq<Uid>)
    requires Exact(g, seed, n, levels, frontier) && Recorded(g, n, levels, adj)
    requires maxLevel > 0 ==> n <= maxLevel
    requires frontier == [] || (maxLevel > 0 && n == maxLevel)
    ensures IsLeveling(g, seed, maxLevel, levels, adj)
  {
    if frontier == [] {
      forall v, d: nat | Hops(g, seed, v, d) ensures v in levels {
        EmptyFrontierIsEverything(g, seed, n, levels, v, d);
      }
      assert forall v :: v in levels ==> levels[v] < n by {
        forall v | v in levels ensures levels[v] < n { assert v !in frontier; }
      }
    }
  }
}
