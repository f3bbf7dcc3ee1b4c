/**
  `generate_brain` (model.py:20-40) as the program runs it: one graph object
  built by the generator and then changed in place by the networkx calls
  `remove_edges_from`, the per-edge weight assignment loops and
  `remove_nodes_from(list(nx.isolates(G)))`.
*/
module BrainNet {
  import opened Graphs
  import opened Degradation

  /** The mutable networkx graph `G`. */
  class Brain {
    var nodes: seq<nat>
    var edges: set<Edge>
    var weight: map<Edge, int>

    function Model(): Graph
      reads this
    {
      Graph(nodes, edges, weight)
    }

    ghost predicate Valid()
      reads this
    {
      WellFormed(Model())
    }

    /** The graph `nx.erdos_renyi_graph(n, p)` returns, its random edge set
        given as `sampled`: nodes 0..n-1 in order, no edge attributes yet. */
    constructor Sampled(n: nat, sampled: set<Edge>)
      requires SimpleOver(n, sampled)
      ensures Valid()
      ensures Model() == Graph(Upto(n), sampled, map[])
    {
      nodes := Upto(n);
      edges := sampled;
      weight := map[];
      new;
      assert Upto(n) == nodes;
    }

    /** `G.remove_edges_from(toRemove)`: each listed edge is removed with its
        attributes; edges not in the graph are ignored. */
    method RemoveEdgesFrom(toRemove: set<Edge>)
      requires Valid()
      modifies this
      ensures Valid()
      ensures Model() == Graph(old(nodes), old(edges) - toRemove, old(weight) - toRemove)
    {
      var pending := toRemove;
      while pending != {}
        invariant pending <= toRemove
        invariant Valid()
        invariant nodes == old(nodes)
        invariant edges == old(edges) - (toRemove - pending)
        invariant weight == old(weight) - (toRemove - pending)
        decreases pending
      {
        var e :| e in pending;
        edges := edges - {e};
        weight := weight - {e};
        pending := pending - {e};
      }
    }

    /** `for (u, v) in G.edges(): G[u][v]['weight'] = ...` with the value
        drawn for each edge given in `draw`. */
    method AssignWeights(draw: map<Edge, int>)
      requires Valid()
      requires edges <= draw.Keys
      modifies this
      ensures Valid()
      ensures nodes == old(nodes) && edges == old(edges)
      ensures weight == map e | e in edges :: draw[e]
    {
      var pending := edges;
      while pending != {}
        invariant pending <= edges
        invariant nodes == old(nodes) && edges == old(edges)
        invariant weight.Keys <= edges
        invariant forall e :: e in edges - pending ==> e in weight && weight[e] == draw[e]
        decreases pending
      {
        var e :| e in pending;
        weight := weight[e := draw[e]];
        pending := pending - {e};
      }
    }

    /** `list(nx.isolates(G))`: the nodes of degree 0, in node order. */
    method Isolates() returns (iso: seq<nat>)
      requires Valid()
      ensures forall v :: v in iso <==> v in nodes && !HasEdge(edges, v)
      ensures Distinct(iso)
    {
      iso := [];
      var i := 0;
      while i < |nodes|
        invariant 0 <= i <= |nodes|
        invariant forall v :: v in iso <==> v in nodes[..i] && !HasEdge(edges, v)
        invariant Distinct(iso)
      {
        assert nodes[..i + 1] == nodes[..i] + [nodes[i]];
        if !HasEdge(edges, nodes[i]) {
          assert nodes[i] !in nodes[..i];
          iso := iso + [nodes[i]];
        }
        i := i + 1;
      }
      assert nodes[..i] == nodes;
    }

    /** `G.remove_nodes_from(vs)`: the listed nodes go, with every edge
        touching one of them and that edge's attributes. */
    method RemoveNodesFrom(vs: seq<nat>)
      requires Valid()
      modifies this
      ensures Valid()
      ensures Model() == NodesRemoved(old(Model()), set v | v in vs)
    {
      var drop := set v | v in vs;
      ghost var after := NodesRemoved(Model(), drop);
      var kept := KeepNodes(nodes, drop);
      edges := set e | e in edges && e.lo !in drop && e.hi !in drop;
      weight := map e | e in weight && e in edges :: weight[e];
      nodes := kept;
      assert Model() == after;
    }

    /** The branch on the state label (model.py:23-37): Healthy only weighs
        the edges, the two Alzheimer states first remove the sampled edges,
        any other label does nothing. */
    method Degrade(choice: string, toRemove: set<Edge>, draw: map<Edge, int>)
      requires Valid() && weight == map[]
      requires toRemove <= edges && |toRemove| == RemovalCount(StateOf(choice), |edges|)
      requires RangeOf(StateOf(choice)).Hundredths? ==> edges - toRemove <= draw.Keys
      modifies this
      ensures Valid()
      ensures nodes == old(nodes) && edges == old(edges) - toRemove
      ensures weight == if RangeOf(StateOf(choice)).NoWeights? then map[] else map e | e in edges :: draw[e]
    {
      if choice == "Healthy" {
        AssignWeights(draw);
      } else if choice == "Early Alzheimer" {
        RemoveEdgesFrom(toRemove);
        AssignWeights(draw);
      } else if choice == "Advanced Alzheimer" {
        RemoveEdgesFrom(toRemove);
        AssignWeights(draw);
      }
    }

    /** `G.remove_nodes_from(list(nx.isolates(G)))` (model.py:39). */
    method PruneIsolates()
      requires Valid()
      modifies this
      ensures Valid()
      ensures Model() == Graph(Without(old(nodes), Isolated(old(nodes), old(edges))), old(edges), old(weight))
    {
      ghost var before := Model();
      ghost var isolated := Isolated(nodes, edges);
      var iso := Isolates();
      ghost var dropped := set v | v in iso;
      assert dropped == isolated;
      RemovingUntouchedNodes(before, isolated);
      RemoveNodesFrom(iso);
      assert Model() == NodesRemoved(before, dropped);
    }
  }

  /** The node-list part of `remove_nodes_from`: one pass over the nodes,
      keeping those not dropped. */
  method KeepNodes(s: seq<nat>, drop: set<nat>) returns (kept: seq<nat>)
    ensures kept == Without(s, drop)
  {
    kept := [];
    var i := 0;
    while i < |s|
      invariant 0 <= i <= |s|
      invariant kept == Without(s[..i], drop)
    {
      WithoutPrefixStep(s, i, drop);
      if s[i] !in drop {
        kept := kept + [s[i]];
      }
      i := i + 1;
    }
    assert s[..i] == s;
  }

  /** Extending a prefix by one element extends `Without` by that element
      unless it is dropped. */
  lemma WithoutPrefixStep(s: seq<nat>, i: nat, drop: set<nat>)
    requires i < |s|
    ensures Without(s[..i + 1], drop) == if s[i] in drop then Without(s[..i], drop) else Without(s[..i], drop) + [s[i]]
  {
    var next := s[..i + 1];
    assert next[..|next| - 1] == s[..i] && next[|next| - 1] == s[i];
  }

  /** The graph after removing the nodes in `drop`: the other nodes keep
      their labels and order, and exactly the edges (and their weights) that
      touch no removed node remain. No remaining node or edge touches `drop`,
      every edge that touches none of it survives with its weight, nothing is
      added, and a well-formed graph stays well formed. */
  function NodesRemoved(g: Graph, drop: set<nat>): (r: Graph)
    ensures forall v :: v in r.nodes <==> v in g.nodes && v !in drop
    ensures r.edges <= g.edges && forall e :: e in r.edges ==> e.lo !in drop && e.hi !in drop
    ensures r.weight.Keys <= g.weight.Keys && forall e :: e in r.weight ==> r.weight[e] == g.weight[e]
    ensures forall e :: e in g.edges && e.lo !in drop && e.hi !in drop ==> e in r.edges
    ensures forall e :: e in g.weight && e in r.edges ==> e in r.weight
    ensures WellFormed(g) ==> WellFormed(r)
  {
    var edges := set e | e in g.edges && e.lo !in drop && e.hi !in drop;
    WithoutDistinct(g.nodes, drop);
    Graph(Without(g.nodes, drop), edges, map e | e in g.weight && e in edges :: g.weight[e])
  }

  /** Removing nodes that no edge touches keeps every edge and weight. */
  lemma RemovingUntouchedNodes(g: Graph, drop: set<nat>)
    requires WellFormed(g)
    requires forall e :: e in g.edges ==> e.lo !in drop && e.hi !in drop
    ensures NodesRemoved(g, drop) == Graph(Without(g.nodes, drop), g.edges, g.weight)
  {
    var r := NodesRemoved(g, drop);
    assert r.edges == g.edges;
    assert r.weight == g.weight;
  }

  /** Taking nodes out of a duplicate-free list leaves it duplicate-free. */
  lemma {:induction false} WithoutDistinct(s: seq<nat>, drop: set<nat>)
    ensures Distinct(s) ==> Distinct(Without(s, drop))
  {
    if s != [] && Distinct(s) {
      var front := s[..|s| - 1];
      assert Distinct(front);
      WithoutDistinct(front, drop);
    }
  }

  /** `generate_brain(choice)` for the given outcomes of the random calls:
      `nx.erdos_renyi_graph` yields `sampled`, `random.sample` yields
      `toRemove`, and the `random.uniform` draws are `draw`. */
  method GenerateBrain(choice: string, sampled: set<Edge>, toRemove: set<Edge>, draw: map<Edge, int>)
    returns (g: Brain)
    requires Admissible(StateOf(choice), NodeCount, sampled, toRemove, draw)
    ensures fresh(g) && g.Valid()
    ensures g.Model() == Degraded(StateOf(choice), NodeCount, sampled, toRemove, draw)
  {
    g := new Brain.Sampled(NodeCount, sampled);
    g.Degrade(choice, toRemove, draw);
    g.PruneIsolates();
  }
}
