/**
  What `generate_brain` (model.py:20-40) computes, as a function of its
  random choices: the sampled Erdős–Rényi edge set, the edges chosen for
  removal and the weight drawn for each edge are inputs here, constrained
  to what the random calls can produce.
*/
module Degradation {
  import opened Graphs

  /** The node count passed to `nx.erdos_renyi_graph` (model.py:21). */
  const NodeCount: nat := 10

  /** The three branches of `generate_brain`, and the fall-through for any
      other choice. */
  datatype BrainState = Healthy | EarlyAlzheimer | AdvancedAlzheimer | Unrecognised

  /** The string comparisons of model.py:23, 27, 33: each of the three labels
      selects its own branch, and every other string selects none. */
  function StateOf(choice: string): (s: BrainState)
    ensures s == Healthy <==> choice == "Healthy"
    ensures s == EarlyAlzheimer <==> choice == "Early Alzheimer"
    ensures s == AdvancedAlzheimer <==> choice == "Advanced Alzheimer"
    ensures s == Unrecognised <==> choice !in {"Healthy", "Early Alzheimer", "Advanced Alzheimer"}
  {
    if choice == "Healthy" then Healthy
    else if choice == "Early Alzheimer" then EarlyAlzheimer
    else if choice == "Advanced Alzheimer" then AdvancedAlzheimer
    else Unrecognised
  }

  /** The sample size `int(0.3 * m)` / `int(0.6 * m)` of model.py:28, 34, in
      exact arithmetic; no removal in the other branches. */
  function RemovalCount(s: BrainState, m: nat): (k: nat)
    ensures k <= m
    ensures s == EarlyAlzheimer ==> 10 * k <= 3 * m < 10 * (k + 1)
    ensures s == AdvancedAlzheimer ==> 10 * k <= 6 * m < 10 * (k + 1)
    ensures s == Healthy || s == Unrecognised ==> k == 0
  {
    match s
    case EarlyAlzheimer => (3 * m) / 10
    case AdvancedAlzheimer => (6 * m) / 10
    case _ => 0
  }

  /** The weights a branch draws, in hundredths: `round(random.uniform(a, b), 2)`
      lies in [100a, 100b]. Unrecognised labels draw none. */
  datatype WeightRange = NoWeights | Hundredths(lo: nat, hi: nat)

  /** Exactly the recognised states draw weights, each from a non-empty range
      inside [0.00, 1.00]. */
  function RangeOf(s: BrainState): (r: WeightRange)
    ensures r.NoWeights? <==> s == Unrecognised
    ensures r.Hundredths? ==> 0 < r.lo < r.hi <= 100
  {
    match s
    case Healthy => Hundredths(70, 100)
    case EarlyAlzheimer => Hundredths(30, 60)
    case AdvancedAlzheimer => Hundredths(10, 30)
    case Unrecognised => NoWeights
  }

  predicate InRange(s: BrainState, w: int) {
    match RangeOf(s)
    case NoWeights => false
    case Hundredths(lo, hi) => lo <= w <= hi
  }

  /** A simple undirected graph over nodes 0..n-1, as the generator makes. */
  predicate SimpleOver(n: nat, es: set<Edge>) {
    forall e :: e in es ==> e.lo < e.hi < n
  }

  /** The nodes 0..n-1 in the order the generator inserts them. */
  function Upto(n: nat): (r: seq<nat>)
    ensures |r| == n
    ensures forall v :: v in r <==> 0 <= v < n
    ensures Increasing(r)
  {
    if n == 0 then []
    else
      var front := Upto(n - 1);
      assert forall i :: 0 <= i < |front| ==> front[i] in front;
      front + [n - 1]
  }

  /** `s` with the members of `drop` taken out, the rest in their order
      (networkx's `remove_nodes_from` on the node list). */
  function Without(s: seq<nat>, drop: set<nat>): (r: seq<nat>)
    ensures forall v :: v in r <==> v in s && v !in drop
    ensures |r| <= |s|
    ensures Increasing(s) ==> Increasing(r)
    ensures (forall v :: v in s ==> v in drop) ==> r == []
  {
    if s == [] then []
    else
      var init := s[..|s| - 1];
      var last := s[|s| - 1];
      var front := Without(init, drop);
      assert s == init + [last];
      AscendingStep(init, last, front);
      if last in drop then front else front + [last]
  }

  /** One step of `Without` on an ascending list: the prefix stays ascending,
      and appending the last element to an ascending selection of the
      prefix keeps it ascending. */
  lemma AscendingStep(init: seq<nat>, last: nat, front: seq<nat>)
    requires forall v :: v in front ==> v in init
    requires Increasing(init) ==> Increasing(front)
    ensures Increasing(init + [last]) ==> Increasing(init) && Increasing(front + [last])
  {
    var s := init + [last];
    if Increasing(s) {
      forall i, j | 0 <= i < j < |init| ensures init[i] < init[j] {
        assert init[i] == s[i] && init[j] == s[j];
      }
      var t := front + [last];
      forall i, j | 0 <= i < j < |t| ensures t[i] < t[j] {
        assert t[i] == front[i] && front[i] in init;
        if j < |front| {
          assert t[j] == front[j];
        } else {
          var k :| 0 <= k < |init| && init[k] == front[i];
          assert s[k] == front[i] && s[|init|] == last;
        }
      }
    }
  }

  /** `nx.isolates`: the listed nodes with no incident edge. No edge of `es`
      has an endpoint among them. */
  function Isolated(s: seq<nat>, es: set<Edge>): (r: set<nat>)
    ensures forall v :: v in r <==> v in s && !HasEdge(es, v)
    ensures forall e :: e in es ==> e.lo !in r && e.hi !in r
  {
    set v | v in s && !HasEdge(es, v)
  }

  /** What the random calls can return, given the sampled edge set: the
      removed edges are `k` distinct current edges (`random.sample`), and, in
      a branch that assigns weights, every surviving edge has a drawn weight
      in its branch's range. */
  predicate Admissible(s: BrainState, n: nat, sampled: set<Edge>, toRemove: set<Edge>, draw: map<Edge, int>) {
    && SimpleOver(n, sampled)
    && toRemove <= sampled
    && |toRemove| == RemovalCount(s, |sampled|)
    && (RangeOf(s).Hundredths? ==> forall e :: e in sampled - toRemove ==> e in draw && InRange(s, draw[e]))
  }

  /** The graph `generate_brain` returns for these random choices: its nodes
      are some of 0..n-1 in ascending order, its edges are sampled ones. */
  function Degraded(s: BrainState, n: nat, sampled: set<Edge>, toRemove: set<Edge>, draw: map<Edge, int>): (g: Graph)
    requires Admissible(s, n, sampled, toRemove, draw)
    ensures Increasing(g.nodes)
    ensures forall v :: v in g.nodes ==> v < n
    ensures g.edges <= sampled
  {
    var kept := sampled - toRemove;
    var weight := if RangeOf(s).NoWeights? then map[] else map e | e in kept :: draw[e];
    Graph(Survivors(n, kept), kept, weight)
  }

  /** The nodes 0..n-1 left once the isolates of `kept` are removed: exactly
      those with an incident edge, in ascending order. */
  function Survivors(n: nat, kept: set<Edge>): (r: seq<nat>)
    ensures Increasing(r)
    ensures forall v: nat :: v in r <==> v < n && HasEdge(kept, v)
  {
    Without(Upto(n), Isolated(Upto(n), kept))
  }

  /** The result is a graph networkx could hold: distinct nodes, no edge to
      a missing node, weights only on present edges. */
  lemma DegradedWellFormed(s: BrainState, n: nat, sampled: set<Edge>, toRemove: set<Edge>, draw: map<Edge, int>)
    requires Admissible(s, n, sampled, toRemove, draw)
    ensures WellFormed(Degraded(s, n, sampled, toRemove, draw))
  {
    var g := Degraded(s, n, sampled, toRemove, draw);
    forall e | e in g.edges ensures e.lo in g.nodes && e.hi in g.nodes {
      assert Touches(e, e.lo) && Touches(e, e.hi);
    }
  }

  /** Surviving edges are input edges, the removed ones are exactly
      `toRemove`, and the edge count drops by exactly the removal count
      (pruning isolates removes no edge). */
  lemma DegradedEdges(s: BrainState, n: nat, sampled: set<Edge>, toRemove: set<Edge>, draw: map<Edge, int>)
    requires Admissible(s, n, sampled, toRemove, draw)
    ensures Degraded(s, n, sampled, toRemove, draw).edges <= sampled
    ensures sampled - Degraded(s, n, sampled, toRemove, draw).edges == toRemove
    ensures |Degraded(s, n, sampled, toRemove, draw).edges| == |sampled| - RemovalCount(s, |sampled|)
  {
    var kept := sampled - toRemove;
    assert sampled == kept + toRemove && kept !! toRemove;
  }

  /** Healthy removes nothing: the edge set is the sampled one and every edge
      is weighted in [0.70, 1.00]. */
  lemma HealthyKeepsEveryEdge(n: nat, sampled: set<Edge>, toRemove: set<Edge>, draw: map<Edge, int>)
    requires Admissible(Healthy, n, sampled, toRemove, draw)
    ensures Degraded(Healthy, n, sampled, toRemove, draw).edges == sampled
    ensures Degraded(Healthy, n, sampled, toRemove, draw).weight.Keys == sampled
    ensures forall e :: e in sampled ==> 70 <= Degraded(Healthy, n, sampled, toRemove, draw).weight[e] <= 100
  {
    assert toRemove == {};
  }

  /** In every branch that assigns weights, every remaining edge carries one,
      inside the branch's range. */
  lemma WeightsInRange(s: BrainState, n: nat, sampled: set<Edge>, toRemove: set<Edge>, draw: map<Edge, int>)
    requires Admissible(s, n, sampled, toRemove, draw)
    requires s != Unrecognised
    ensures var g := Degraded(s, n, sampled, toRemove, draw);
      g.weight.Keys == g.edges &&
      forall e :: e in g.edges ==> RangeOf(s).lo <= g.weight[e] <= RangeOf(s).hi
  {
  }

  /** No isolated node survives: a node is kept exactly when it is one of
      0..n-1 with an incident surviving edge, so each kept node has degree at
      least 1, and nodes keep their labels. */
  lemma NoIsolatedNodes(s: BrainState, n: nat, sampled: set<Edge>, toRemove: set<Edge>, draw: map<Edge, int>)
    requires Admissible(s, n, sampled, toRemove, draw)
    ensures var g := Degraded(s, n, sampled, toRemove, draw);
      forall v: nat :: v in g.nodes <==> v < n && HasEdge(g.edges, v)
    ensures var g := Degraded(s, n, sampled, toRemove, draw);
      forall v :: v in g.nodes ==> Degree(g, v) >= 1
  {
    var g := Degraded(s, n, sampled, toRemove, draw);
    assert g.nodes == Survivors(n, sampled - toRemove) && g.edges == sampled - toRemove;
    forall v | v in g.nodes ensures Degree(g, v) >= 1 {
      EdgeGivesDegree(g, v);
    }
  }

  /** A node with an incident edge has degree at least 1. */
  lemma EdgeGivesDegree(g: Graph, v: nat)
    requires HasEdge(g.edges, v)
    ensures Degree(g, v) >= 1
  {
    var e :| e in g.edges && Touches(e, v);
    assert e in Incident(g, v);
  }

  /** Any other choice: no edge is removed and no weight assigned; the only
      change is the pruning of isolates. */
  lemma UnrecognisedOnlyPrunes(choice: string, n: nat, sampled: set<Edge>, toRemove: set<Edge>, draw: map<Edge, int>)
    requires StateOf(choice) == Unrecognised
    requires Admissible(StateOf(choice), n, sampled, toRemove, draw)
    ensures Degraded(StateOf(choice), n, sampled, toRemove, draw).edges == sampled
    ensures Degraded(StateOf(choice), n, sampled, toRemove, draw).weight == map[]
  {
    assert toRemove == {};
  }

  /** With one sampled edge, Early Alzheimer removes `int(0.3)` = 0 edges, so
      the edge survives, with a weight in [0.30, 0.60]. */
  lemma EarlySingleEdgeSurvives(n: nat, sampled: set<Edge>, toRemove: set<Edge>, draw: map<Edge, int>)
    requires Admissible(EarlyAlzheimer, n, sampled, toRemove, draw)
    requires |sampled| == 1
    ensures Degraded(EarlyAlzheimer, n, sampled, toRemove, draw).edges == sampled
    ensures forall e :: e in sampled ==> 30 <= Degraded(EarlyAlzheimer, n, sampled, toRemove, draw).weight[e] <= 60
  {
    assert RemovalCount(EarlyAlzheimer, 1) == 0;
    assert toRemove == {};
    WeightsInRange(EarlyAlzheimer, n, sampled, toRemove, draw);
  }

  /** With no sampled edge there is nothing to remove, and every node is pruned. */
  lemma EmptySampleGivesEmptyGraph(s: BrainState, n: nat, toRemove: set<Edge>, draw: map<Edge, int>)
    requires Admissible(s, n, {}, toRemove, draw)
    ensures Degraded(s, n, {}, toRemove, draw) == Graph([], {}, map[])
  {
    var g := Degraded(s, n, {}, toRemove, draw);
    assert g.weight == map[];
  }

  /** Every simple graph over nodes 0..n-1, as a set of normalised pairs. */
  function AllPairs(n: nat): (r: set<Edge>)
    ensures forall e :: e in r <==> e.lo < e.hi < n
    ensures |r| == n * (n - 1) / 2
  {
    if n == 0 then {}
    else
      var column := Column(n - 1, n - 1);
      assert AllPairs(n - 1) !! column;
      assert (n - 1) * (n - 2) / 2 + (n - 1) == n * (n - 1) / 2 by {
        assert n * (n - 1) == (n - 1) * (n - 2) + 2 * (n - 1);
      }
      AllPairs(n - 1) + column
  }

  /** The edges from nodes 0..k-1 to node `top`: one per lower node. */
  function Column(top: nat, k: nat): (r: set<Edge>)
    ensures forall e :: e in r <==> e.lo < k && e.hi == top
    ensures |r| == k
  {
    if k == 0 then {}
    else
      assert Edge(k - 1, top) !in Column(top, k - 1);
      Column(top, k - 1) + {Edge(k - 1, top)}
  }

  /** A simple graph over nodes 0..n-1 has at most n(n-1)/2 edges. */
  lemma SimpleEdgeBound(n: nat, es: set<Edge>)
    requires SimpleOver(n, es)
    ensures |es| <= n * (n - 1) / 2
  {
    var all := AllPairs(n);
    assert es <= all;
    assert |es| <= |all| by {
      assert all == es + (all - es) && es !! (all - es);
    }
  }

  /** A 10-node simple graph has at most 45 edges, the range in which
      `(3 * m) / 10` and `(6 * m) / 10` agree with the float expressions
      `int(0.3 * m)` and `int(0.6 * m)`. */
  lemma SampledEdgeBound(sampled: set<Edge>)
    requires SimpleOver(NodeCount, sampled)
    ensures |sampled| <= 45
  {
    SimpleEdgeBound(NodeCount, sampled);
  }
}
