/**
  The undirected, weighted graph that model.py builds with networkx, seen as
  a value: an ordered sequence of node labels (networkx keeps its nodes in
  insertion order), a set of unordered edges and a weight per edge in integer
  hundredths. Also the selection-dependent views of a graph the page draws:
  neighbours, the activation set and the node colours.
*/
module Graphs {

  /** An unordered pair of nodes, stored with the smaller endpoint first. */
  datatype Edge = Edge(lo: nat, hi: nat)

  /** The edge joining two distinct nodes, given in either order. */
  function Join(u: nat, v: nat): (e: Edge)
    requires u != v
    ensures e.lo < e.hi
    ensures (e.lo == u && e.hi == v) || (e.lo == v && e.hi == u)
  {
    if u < v then Edge(u, v) else Edge(v, u)
  }

  predicate Touches(e: Edge, v: nat) {
    e.lo == v || e.hi == v
  }

  /** The endpoint of `e` that is not `v`. */
  function Other(e: Edge, v: nat): nat
    requires Touches(e, v)
  {
    if e.lo == v then e.hi else e.lo
  }

  /** A node with at least one incident edge in `es`. */
  predicate HasEdge(es: set<Edge>, v: nat) {
    exists e :: e in es && Touches(e, v)
  }

  datatype Graph = Graph(nodes: seq<nat>, edges: set<Edge>, weight: map<Edge, int>)

  predicate Increasing(s: seq<nat>) {
    forall i, j :: 0 <= i < j < |s| ==> s[i] < s[j]
  }

  predicate Distinct(s: seq<nat>) {
    forall i, j :: 0 <= i < j < |s| ==> s[i] != s[j]
  }

  /** No self-loops, and no pair stored twice (each pair has one normal form). */
  predicate Simple(g: Graph) {
    forall e :: e in g.edges ==> e.lo < e.hi
  }

  /** What networkx maintains for a graph: nodes are listed once, every edge
      joins two present nodes, and only present edges carry attributes. */
  predicate WellFormed(g: Graph) {
    && Simple(g)
    && Distinct(g.nodes)
    && (forall e :: e in g.edges ==> e.lo in g.nodes && e.hi in g.nodes)
    && g.weight.Keys <= g.edges
  }

  /** `u` and `v` are joined by an edge of `g`. */
  predicate Adjacent(g: Graph, u: nat, v: nat) {
    u != v && Join(u, v) in g.edges
  }

  /** The edges of `g` at `v`. */
  function Incident(g: Graph, v: nat): set<Edge> {
    set e | e in g.edges && Touches(e, v)
  }

  /** networkx's degree of `v`: the number of incident edges (no self-loops here). */
  function Degree(g: Graph, v: nat): nat {
    |Incident(g, v)|
  }

  /** Distinct incident edges of `v` have distinct far endpoints, so taking the
      far endpoint keeps the number of elements. */
  lemma {:induction false} OtherImageSize(es: set<Edge>, v: nat)
    requires forall e :: e in es ==> e.lo < e.hi && Touches(e, v)
    ensures |set e | e in es :: Other(e, v)| == |es|
    decreases |es|
  {
    if es != {} {
      var e :| e in es;
      var rest := es - {e};
      OtherImageSize(rest, v);
      var image := set x | x in es :: Other(x, v);
      var restImage := set x | x in rest :: Other(x, v);
      assert image == restImage + {Other(e, v)};
    }
  }

  /** `G.neighbors(v)` (model.py:56); networkx raises for a node not in the
      graph, so `v` must be present. */
  function Neighbours(g: Graph, v: nat): (r: set<nat>)
    requires Simple(g) && v in g.nodes
    ensures forall u :: u in r <==> Adjacent(g, v, u)
    ensures v !in r
    ensures |r| == Degree(g, v)
  {
    var r := set e | e in Incident(g, v) :: Other(e, v);
    OtherImageSize(Incident(g, v), v);
    assert forall u :: Adjacent(g, v, u) ==> Join(v, u) in Incident(g, v) && Other(Join(v, u), v) == u;
    r
  }

  /** The selected neuron together with its neighbours (model.py:60). */
  function Activation(g: Graph, selected: nat): (r: set<nat>)
    requires Simple(g) && selected in g.nodes
    ensures forall u :: u in r <==> u == selected || Adjacent(g, selected, u)
    ensures |r| == 1 + Degree(g, selected)
    ensures WellFormed(g) ==> forall u :: u in r ==> u in g.nodes
  {
    {selected} + Neighbours(g, selected)
  }

  datatype Colour = Blue | LightGray

  /** The node colour list, one colour per node in node order (model.py:54-63):
      with at least one node, the activated nodes are blue and the others light
      grey; with none, there is no selection and the list is empty. */
  function Colours(g: Graph, selected: nat): (r: seq<Colour>)
    requires Simple(g)
    requires |g.nodes| > 0 ==> selected in g.nodes
    ensures |r| == |g.nodes|
    ensures forall i :: 0 <= i < |r| ==>
              (r[i] == Blue <==> g.nodes[i] == selected || Adjacent(g, selected, g.nodes[i]))
  {
    if |g.nodes| > 0 then
      var activated := Activation(g, selected);
      seq(|g.nodes|, i requires 0 <= i < |g.nodes| => if g.nodes[i] in activated then Blue else LightGray)
    else
      seq(|g.nodes|, _ => LightGray)
  }

  function CountBlue(cs: seq<Colour>): nat {
    if cs == [] then 0 else (if cs[0] == Blue then 1 else 0) + CountBlue(cs[1..])
  }

  /** The set of members of a node list. */
  function Elems(s: seq<nat>): (r: set<nat>)
    ensures forall x :: x in r <==> x in s
  {
    if s == [] then {} else {s[0]} + Elems(s[1..])
  }

  /** The tail of a list without repeats has no repeats and lacks the head. */
  lemma DistinctTail(s: seq<nat>)
    requires Distinct(s) && s != []
    ensures Distinct(s[1..])
    ensures s[0] !in Elems(s[1..])
  {
    var tail := s[1..];
    forall i, j | 0 <= i < j < |tail| ensures tail[i] != tail[j] {
      assert tail[i] == s[i + 1] && tail[j] == s[j + 1];
    }
  }

  /** Adding a new element `h` to `t` adds one member to `a * t` when `h` is in `a`. */
  lemma IntersectWithHead(a: set<nat>, h: nat, t: set<nat>)
    requires h !in t
    ensures |a * ({h} + t)| == |a * t| + (if h in a then 1 else 0)
  {
    if h in a {
      assert a * ({h} + t) == (a * t) + {h};
    } else {
      assert a * ({h} + t) == a * t;
    }
  }

  /** Blue positions of `cs` are exactly the positions of `s` holding a member
      of `a`; for distinct `s` their number is the number of members of `a` in `s`. */
  lemma {:induction false} CountBlueMatches(cs: seq<Colour>, s: seq<nat>, a: set<nat>)
    requires |cs| == |s| && Distinct(s)
    requires forall i :: 0 <= i < |s| ==> (cs[i] == Blue <==> s[i] in a)
    ensures CountBlue(cs) == |a * Elems(s)|
  {
    if s != [] {
      var tail := s[1..];
      DistinctTail(s);
      assert forall i :: 0 <= i < |tail| ==> (cs[1..][i] == Blue <==> tail[i] in a) by {
        forall i | 0 <= i < |tail| ensures cs[1..][i] == Blue <==> tail[i] in a {
          assert cs[1..][i] == cs[i + 1] && tail[i] == s[i + 1];
        }
      }
      CountBlueMatches(cs[1..], tail, a);
      IntersectWithHead(a, s[0], Elems(tail));
    }
  }

  /** In a well-formed graph the selected neuron and each of its neighbours are
      drawn blue, and nothing else is: exactly 1 + degree blue nodes. */
  lemma BlueNodeCount(g: Graph, selected: nat)
    requires WellFormed(g) && selected in g.nodes
    ensures CountBlue(Colours(g, selected)) == 1 + Degree(g, selected)
  {
    var activated := Activation(g, selected);
    CountBlueMatches(Colours(g, selected), g.nodes, activated);
    assert activated * Elems(g.nodes) == activated;
  }
}
