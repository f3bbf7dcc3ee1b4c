/**
  The "Network Stats" panel of model.py:72, 94-96: neuron count, connection
  count and average weight, the last one only when some edge remains.
*/
module Summaries {
  import opened Graphs
  import opened Degradation

  datatype Option<T> = None | Some(value: T)

  /** Some edge of a non-empty set; every sum below picks the same one. */
  ghost function Pick(es: set<Edge>): (e: Edge)
    requires es != {}
    ensures e in es
  {
    var e :| e in es; e
  }

  /** `sum(weights)` over the edges `es`, in hundredths; a sum of weights
      that are not negative is not negative. */
  ghost function TotalWeight(w: map<Edge, int>, es: set<Edge>): (r: int)
    requires es <= w.Keys
    ensures (forall e :: e in es ==> 0 <= w[e]) ==> 0 <= r
    decreases es
  {
    if es == {} then 0 else w[Pick(es)] + TotalWeight(w, es - {Pick(es)})
  }

  /** A sum of weights that each lie in [lo, hi] lies in [lo * count, hi * count]. */
  lemma {:induction false} TotalWeightBounds(w: map<Edge, int>, es: set<Edge>, lo: int, hi: int)
    requires es <= w.Keys
    requires forall e :: e in es ==> lo <= w[e] <= hi
    ensures lo * |es| <= TotalWeight(w, es) <= hi * |es|
    decreases es
  {
    if es != {} {
      var e := Pick(es);
      var rest := es - {e};
      TotalWeightBounds(w, rest, lo, hi);
      assert TotalWeight(w, es) == w[e] + TotalWeight(w, rest);
      assert |es| == |rest| + 1;
      MulSucc(lo, |rest|);
      MulSucc(hi, |rest|);
    }
  }

  lemma MulSucc(a: int, k: nat)
    ensures a * (k + 1) == a * k + a
  {
  }

  lemma MulMono(a: int, b: int, k: nat)
    requires a <= b
    ensures a * k <= b * k
  {
  }

  /** The sum does not depend on the order in which the edges are visited:
      any edge can be taken out first. */
  lemma {:induction false} TotalWeightRemove(w: map<Edge, int>, es: set<Edge>, e: Edge)
    requires es <= w.Keys && e in es
    ensures TotalWeight(w, es) == w[e] + TotalWeight(w, es - {e})
    decreases |es|
  {
    var p := Pick(es);
    if p != e {
      var rest := es - {p};
      TotalWeightRemove(w, rest, e);
      TotalWeightRemove(w, es - {e}, p);
      assert rest - {e} == (es - {e}) - {p};
    }
  }

  /** Some edge weighs no more than the mean and some edge no less: the sum
      lies between count times the lightest and count times the heaviest
      weight. */
  lemma {:induction false} LightestAndHeaviest(w: map<Edge, int>, es: set<Edge>)
    requires es != {} && es <= w.Keys
    ensures exists e :: e in es && w[e] * |es| <= TotalWeight(w, es)
    ensures exists e :: e in es && TotalWeight(w, es) <= w[e] * |es|
    decreases es
  {
    var p := Pick(es);
    var rest := es - {p};
    assert TotalWeight(w, es) == w[p] + TotalWeight(w, rest);
    assert |es| == |rest| + 1;
    if rest == {} {
      assert w[p] * |es| == w[p];
    } else {
      LightestAndHeaviest(w, rest);
      var a :| a in rest && w[a] * |rest| <= TotalWeight(w, rest);
      var b :| b in rest && TotalWeight(w, rest) <= w[b] * |rest|;
      var lightest := if w[p] <= w[a] then p else a;
      var heaviest := if w[p] >= w[b] then p else b;
      MulMono(w[lightest], w[a], |rest|);
      MulSucc(w[lightest], |rest|);
      MulMono(w[b], w[heaviest], |rest|);
      MulSucc(w[heaviest], |rest|);
      assert w[lightest] * |es| <= TotalWeight(w, es);
      assert TotalWeight(w, es) <= w[heaviest] * |es|;
    }
  }

  /** The "Average Weight" metric: `sum / len` when some edge remains, "N/A"
      otherwise. The quotient is kept as its two integer operands. */
  datatype Average = NotApplicable | Mean(total: int, count: nat)

  datatype Stats = Stats(neurons: nat, connections: nat, average: Average)

  /** The panel for graph `g`. `None` is the `KeyError` that building the
      weight list (model.py:72) raises when some edge has no weight. */
  ghost function Summary(g: Graph): (r: Option<Stats>)
    ensures r.Some? <==> forall e :: e in g.edges ==> e in g.weight
    ensures r.Some? ==> r.value.neurons == |g.nodes| && r.value.connections == |g.edges|
    ensures r.Some? ==> (r.value.average.NotApplicable? <==> g.edges == {})
    ensures r.Some? && r.value.average.Mean? ==> r.value.average.count == |g.edges| > 0
    ensures r.Some? && r.value.average.Mean? ==>
      (exists e :: e in g.edges && g.weight[e] * r.value.average.count <= r.value.average.total) &&
      (exists e :: e in g.edges && r.value.average.total <= g.weight[e] * r.value.average.count)
  {
    if g.edges <= g.weight.Keys then
      if g.edges == {} then
        Some(Stats(|g.nodes|, 0, NotApplicable))
      else
        LightestAndHeaviest(g.weight, g.edges);
        Some(Stats(|g.nodes|, |g.edges|, Mean(TotalWeight(g.weight, g.edges), |g.edges|)))
    else
      None
  }

  /** For the three recognised states the panel always shows: the counts are
      those of the pruned graph, the connection count is m minus the removal
      count, and the mean weight lies in the state's range. */
  lemma GeneratedSummary(s: BrainState, n: nat, sampled: set<Edge>, toRemove: set<Edge>, draw: map<Edge, int>)
    requires Admissible(s, n, sampled, toRemove, draw)
    requires s != Unrecognised
    ensures var g := Degraded(s, n, sampled, toRemove, draw);
      var r := Summary(g);
      && r.Some?
      && r.value.neurons == |g.nodes|
      && r.value.connections == |sampled| - RemovalCount(s, |sampled|)
      && (r.value.average.Mean? ==>
            RangeOf(s).lo * r.value.average.count <= r.value.average.total <= RangeOf(s).hi * r.value.average.count)
  {
    var g := Degraded(s, n, sampled, toRemove, draw);
    WeightsInRange(s, n, sampled, toRemove, draw);
    DegradedEdges(s, n, sampled, toRemove, draw);
    TotalWeightBounds(g.weight, g.edges, RangeOf(s).lo, RangeOf(s).hi);
  }

  /** Any other label leaves its surviving edges unweighted, so the panel
      fails with `KeyError` as soon as an edge survives; with none it shows
      "N/A". */
  lemma UnrecognisedSummary(s: BrainState, n: nat, sampled: set<Edge>, toRemove: set<Edge>, draw: map<Edge, int>)
    requires Admissible(s, n, sampled, toRemove, draw)
    requires s == Unrecognised
    ensures Summary(Degraded(s, n, sampled, toRemove, draw)).None? <==> sampled != {}
  {
    var g := Degraded(s, n, sampled, toRemove, draw);
    assert toRemove == {};
    assert g.edges == sampled && g.weight == map[];
    UnweightedSummary(g);
  }

  /** A graph without weights has a panel only when it has no edge. */
  lemma UnweightedSummary(g: Graph)
    requires g.weight == map[]
    ensures Summary(g).None? <==> g.edges != {}
  {
    if g.edges != {} {
      var e :| e in g.edges;
      assert e !in g.weight;
    }
  }
}
