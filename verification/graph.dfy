/** The dependency graph of a configuration: measures hang off their data
    sources, metrics hang off their factors (measures or other metrics), and
    the whole graph must be a DAG. */
module ConfigGraph {
  import opened Results
  import opened Digraph

  /** A measure scores the raw data column `source` under the name `name`. */
  datatype Measure = Measure(name: string, source: string)

  /** A weighted input of a metric, naming a measure or another metric. */
  datatype Factor = Factor(name: string, weight: real)

  datatype Metric = Metric(name: string, factors: seq<Factor>)

  datatype Config = Config(measures: seq<Measure>, metrics: seq<Metric>)

  /** A directed graph; `weight` labels the factor edges only. */
  datatype Graph = Graph(nodes: set<Node>, edges: set<Edge>, weight: map<Edge, real>)
  {
    predicate Valid() {
      EdgesWithin(nodes, edges) && weight.Keys <= edges
    }
  }

  datatype GraphError =
    | MeasureInGraph(name: string)
    | MetricInGraph(name: string)
    | FactorNotInGraph(name: string)
    | NotADag

  // ----- Measures: one source node, one measure node, one edge each -----

  function MeasureNodes(ms: seq<Measure>): set<Node> {
    (set m | m in ms :: m.source) + (set m | m in ms :: m.name)
  }

  function MeasureEdges(ms: seq<Measure>): set<Edge> {
    set m | m in ms :: (m.source, m.name)
  }

  /** Measure `i` is not named after a node that an earlier measure added. */
  predicate MeasureFreshAt(ms: seq<Measure>, i: int)
    requires 0 <= i < |ms|
  {
    ms[i].name !in MeasureNodes(ms[..i])
  }

  predicate MeasuresFresh(ms: seq<Measure>) {
    forall i :: 0 <= i < |ms| ==> MeasureFreshAt(ms, i)
  }

  lemma MeasureSetsStep(ms: seq<Measure>)
    requires |ms| > 0
    ensures var p, m := ms[..|ms| - 1], ms[|ms| - 1];
      && MeasureNodes(ms) == MeasureNodes(p) + {m.source, m.name}
      && MeasureEdges(ms) == MeasureEdges(p) + {(m.source, m.name)}
  {
    var p, m := ms[..|ms| - 1], ms[|ms| - 1];
    assert ms == p + [m];
    assert forall x :: x in ms <==> x in p || x == m;
  }

  lemma MeasureFreshStep(ms: seq<Measure>)
    requires |ms| > 0
    ensures var p, m := ms[..|ms| - 1], ms[|ms| - 1];
      MeasuresFresh(ms) <==> MeasuresFresh(p) && m.name !in MeasureNodes(p)
  {
    var p, m := ms[..|ms| - 1], ms[|ms| - 1];
    assert ms[..|p|] == p;
    forall i | 0 <= i < |p| ensures MeasureFreshAt(ms, i) == MeasureFreshAt(p, i) {
      assert ms[i] == p[i] && ms[..i] == p[..i];
    }
    assert MeasureFreshAt(ms, |p|) == (m.name !in MeasureNodes(p));
  }

  /** The first loop of graph construction, one measure at a time. */
  function AddMeasures(ms: seq<Measure>): (r: Result<Graph, GraphError>)
    ensures r.Ok? <==> MeasuresFresh(ms)
    ensures r.Ok? ==> r.value == Graph(MeasureNodes(ms), MeasureEdges(ms), map[]) && r.value.Valid()
    ensures r.Err? ==> exists i :: 0 <= i < |ms| && MeasuresFresh(ms[..i]) && !MeasureFreshAt(ms, i)
                                   && r.error == MeasureInGraph(ms[i].name)
  {
    if |ms| == 0 then Ok(Graph({}, {}, map[]))
    else
      MeasureSetsStep(ms);
      MeasureFreshStep(ms);
      var p := ms[..|ms| - 1];
      assert forall i :: 0 <= i <= |p| ==> p[..i] == ms[..i];
      var g :- AddMeasures(p);
      var m := ms[|ms| - 1];
      if m.name in g.nodes then
        assert ms[..|ms| - 1] == p;
        Err(MeasureInGraph(m.name))
      else
        Ok(Graph(g.nodes + {m.source, m.name}, g.edges + {(m.source, m.name)}, g.weight))
  }

  // ----- Metrics: one node each, added before any factor edge -----

  function MetricNames(mets: seq<Metric>): set<Node> {
    set m | m in mets :: m.name
  }

  /** Metric `i` is named after neither a node of `nodes` nor an earlier metric. */
  predicate MetricFreshAt(nodes: set<Node>, mets: seq<Metric>, i: int)
    requires 0 <= i < |mets|
  {
    mets[i].name !in nodes + MetricNames(mets[..i])
  }

  predicate MetricsFresh(nodes: set<Node>, mets: seq<Metric>) {
    forall i :: 0 <= i < |mets| ==> MetricFreshAt(nodes, mets, i)
  }

  lemma MetricStep(nodes: set<Node>, mets: seq<Metric>)
    requires |mets| > 0
    ensures var p, m := mets[..|mets| - 1], mets[|mets| - 1];
      && MetricNames(mets) == MetricNames(p) + {m.name}
      && (MetricsFresh(nodes, mets) <==> MetricsFresh(nodes, p) && m.name !in nodes + MetricNames(p))
  {
    var p, m := mets[..|mets| - 1], mets[|mets| - 1];
    assert mets == p + [m];
    assert forall x :: x in mets <==> x in p || x == m;
    assert mets[..|p|] == p;
    forall i | 0 <= i < |p| ensures MetricFreshAt(nodes, mets, i) == MetricFreshAt(nodes, p, i) {
      assert mets[i] == p[i] && mets[..i] == p[..i];
    }
    assert MetricFreshAt(nodes, mets, |p|) == (m.name !in nodes + MetricNames(p));
  }

  /** The second loop of graph construction. */
  function AddMetricNodes(g: Graph, mets: seq<Metric>): (r: Result<Graph, GraphError>)
    requires g.Valid()
    ensures r.Ok? <==> MetricsFresh(g.nodes, mets)
    ensures r.Ok? ==> r.value == g.(nodes := g.nodes + MetricNames(mets)) && r.value.Valid()
    ensures r.Err? ==> exists i :: 0 <= i < |mets| && MetricsFresh(g.nodes, mets[..i])
                                   && !MetricFreshAt(g.nodes, mets, i)
                                   && r.error == MetricInGraph(mets[i].name)
  {
    if |mets| == 0 then Ok(g)
    else
      MetricStep(g.nodes, mets);
      var p := mets[..|mets| - 1];
      assert forall i :: 0 <= i <= |p| ==> p[..i] == mets[..i];
      var h :- AddMetricNodes(g, p);
      var m := mets[|mets| - 1];
      if m.name in h.nodes then
        assert mets[..|mets| - 1] == p;
        Err(MetricInGraph(m.name))
      else
        Ok(h.(nodes := h.nodes + {m.name}))
  }

  // ----- Factor edges, metric by metric, factor by factor -----

  /** One factor of one metric, in the order the third loop visits them. */
  datatype Link = Link(factor: Node, metric: Node, weight: real)
  {
    function AsEdge(): Edge { (factor, metric) }
  }

  function MetricLinks(m: Metric): (r: seq<Link>)
    ensures |r| == |m.factors|
    ensures forall j :: 0 <= j < |r| ==> r[j] == Link(m.factors[j].name, m.name, m.factors[j].weight)
  {
    seq(|m.factors|, j requires 0 <= j < |m.factors| => Link(m.factors[j].name, m.name, m.factors[j].weight))
  }

  /** Every (factor, metric) pair of the configuration, metrics in order and
      each metric's factors in order. */
  function Links(mets: seq<Metric>): seq<Link> {
    if |mets| == 0 then [] else MetricLinks(mets[0]) + Links(mets[1..])
  }

  /** Each factor of each metric gives a link. */
  lemma {:induction false} LinkOfFactor(mets: seq<Metric>, m: Metric, f: Factor)
    requires m in mets && f in m.factors
    ensures Link(f.name, m.name, f.weight) in Links(mets)
  {
    if m == mets[0] {
      var j :| 0 <= j < |m.factors| && m.factors[j] == f;
      assert MetricLinks(m)[j] == Link(f.name, m.name, f.weight);
    } else {
      assert m in mets[1..];
      LinkOfFactor(mets[1..], m, f);
    }
  }

  /** Each link comes from a factor of a metric. */
  lemma {:induction false} FactorOfLink(mets: seq<Metric>, l: Link) returns (m: Metric, f: Factor)
    requires l in Links(mets)
    ensures m in mets && f in m.factors && l == Link(f.name, m.name, f.weight)
  {
    var head := MetricLinks(mets[0]);
    if l in head {
      var j :| 0 <= j < |head| && head[j] == l;
      m, f := mets[0], mets[0].factors[j];
    } else {
      m, f := FactorOfLink(mets[1..], l);
      assert m in mets;
    }
  }

  function LinkEdges(links: seq<Link>): set<Edge> {
    set l | l in links :: l.AsEdge()
  }

  /** Every factor of every metric, as an edge into that metric. */
  function FactorEdges(mets: seq<Metric>): set<Edge> {
    set m, f | m in mets && f in m.factors :: (f.name, m.name)
  }

  /** Every factor names a node of the graph. */
  predicate FactorsResolve(nodes: set<Node>, mets: seq<Metric>) {
    forall m, f :: m in mets && f in m.factors ==> f.name in nodes
  }

  /** No later link of `links` targets the same edge as `links[k]`. */
  predicate LastFor(links: seq<Link>, k: int)
    requires 0 <= k < |links|
  {
    forall k' :: k < k' < |links| ==> links[k'].AsEdge() != links[k].AsEdge()
  }

  /** Every link's factor names a node. */
  predicate Resolved(nodes: set<Node>, links: seq<Link>) {
    forall k :: 0 <= k < |links| ==> links[k].factor in nodes
  }

  lemma LinkStep(nodes: set<Node>, links: seq<Link>)
    requires |links| > 0
    ensures var p, l := links[..|links| - 1], links[|links| - 1];
      && LinkEdges(links) == LinkEdges(p) + {l.AsEdge()}
      && (Resolved(nodes, links) <==> Resolved(nodes, p) && l.factor in nodes)
  {
    assert links == links[..|links| - 1] + [links[|links| - 1]];
  }

  lemma LastForPrefix(links: seq<Link>, k: int)
    requires 0 <= k < |links| - 1 && LastFor(links, k)
    ensures var p := links[..|links| - 1];
      && p[k] == links[k]
      && LastFor(p, k)
      && links[k].AsEdge() != links[|links| - 1].AsEdge()
  {
  }

  /** The weight each factor edge ends up with when the links are added in
      order: a later link to the same edge overwrites an earlier one. */
  function LinkWeights(links: seq<Link>): (r: map<Edge, real>)
    ensures r.Keys == LinkEdges(links)
    ensures forall k {:trigger LastFor(links, k)} :: 0 <= k < |links| && LastFor(links, k) ==>
              links[k].AsEdge() in r && r[links[k].AsEdge()] == links[k].weight
  {
    if |links| == 0 then map[]
    else
      var p, l := links[..|links| - 1], links[|links| - 1];
      LinkStep({}, links);
      var w := LinkWeights(p);
      assert forall k :: 0 <= k < |links| && LastFor(links, k) ==>
               links[k].AsEdge() in w[l.AsEdge() := l.weight] && w[l.AsEdge() := l.weight][links[k].AsEdge()] == links[k].weight by {
        forall k | 0 <= k < |links| && LastFor(links, k)
          ensures links[k].AsEdge() in w[l.AsEdge() := l.weight] && w[l.AsEdge() := l.weight][links[k].AsEdge()] == links[k].weight
        {
          if k < |p| {
            LastForPrefix(links, k);
          }
        }
      }
      w[l.AsEdge() := l.weight]
  }

  lemma UpdateUnion(a: map<Edge, real>, b: map<Edge, real>, e: Edge, v: real)
    ensures (a + b)[e := v] == a + b[e := v]
  {
  }

  /** The third loop: resolve each factor in turn and add its weighted edge;
      adding an edge that exists already overwrites its weight. */
  function AddLinks(g: Graph, links: seq<Link>): (r: Result<Graph, GraphError>)
    requires g.Valid()
    requires forall k :: 0 <= k < |links| ==> links[k].metric in g.nodes
    ensures r.Ok? <==> Resolved(g.nodes, links)
    ensures r.Err? ==> exists k :: 0 <= k < |links| && links[k].factor !in g.nodes
                                   && Resolved(g.nodes, links[..k])
                                   && r.error == FactorNotInGraph(links[k].factor)
    ensures r.Ok? ==> && r.value.Valid()
                      && r.value.nodes == g.nodes
                      && r.value.edges == g.edges + LinkEdges(links)
                      && r.value.weight == g.weight + LinkWeights(links)
  {
    if |links| == 0 then
      assert g.weight + map[] == g.weight;
      Ok(g)
    else
      var p, l := links[..|links| - 1], links[|links| - 1];
      LinkStep(g.nodes, links);
      assert forall k :: 0 <= k <= |p| ==> p[..k] == links[..k];
      var h :- AddLinks(g, p);
      if l.factor !in h.nodes then
        assert links[..|links| - 1] == p;
        Err(FactorNotInGraph(l.factor))
      else
        UpdateUnion(g.weight, LinkWeights(p), l.AsEdge(), l.weight);
        Ok(Graph(h.nodes, h.edges + {l.AsEdge()}, h.weight[l.AsEdge() := l.weight]))
  }

  lemma LinksResolve(nodes: set<Node>, mets: seq<Metric>)
    ensures LinkEdges(Links(mets)) == FactorEdges(mets)
    ensures Resolved(nodes, Links(mets)) <==> FactorsResolve(nodes, mets)
    ensures (forall k :: 0 <= k < |Links(mets)| ==> Links(mets)[k].metric in MetricNames(mets))
  {
    var links := Links(mets);
    forall e | e in FactorEdges(mets) ensures e in LinkEdges(links) {
      var m, f :| m in mets && f in m.factors && e == (f.name, m.name);
      LinkOfFactor(mets, m, f);
    }
    forall e | e in LinkEdges(links) ensures e in FactorEdges(mets) {
      var l :| l in links && e == l.AsEdge();
      var m, f := FactorOfLink(mets, l);
    }
    forall k | 0 <= k < |links| ensures links[k].metric in MetricNames(mets) {
      var m, f := FactorOfLink(mets, links[k]);
    }
    if Resolved(nodes, links) {
      forall m, f | m in mets && f in m.factors ensures f.name in nodes {
        LinkOfFactor(mets, m, f);
        var k :| 0 <= k < |links| && links[k] == Link(f.name, m.name, f.weight);
      }
    } else {
      var k :| 0 <= k < |links| && links[k].factor !in nodes;
      var m, f := FactorOfLink(mets, links[k]);
    }
  }

  // ----- The whole construction -----

  /** Every node the configuration mentions. */
  function ConfigNodes(cfg: Config): set<Node> {
    MeasureNodes(cfg.measures) + MetricNames(cfg.metrics)
  }

  /** Every edge the configuration asks for. */
  function ConfigEdges(cfg: Config): set<Edge> {
    MeasureEdges(cfg.measures) + FactorEdges(cfg.metrics)
  }

  /** Builds the graph of `cfg`, failing on the first name collision, the first
      factor that names no node, or a cycle, in that order. */
  function CreateGraph(cfg: Config): (r: Result<Graph, GraphError>)
    ensures r.Ok? <==> && MeasuresFresh(cfg.measures)
                       && MetricsFresh(MeasureNodes(cfg.measures), cfg.metrics)
                       && FactorsResolve(ConfigNodes(cfg), cfg.metrics)
                       && Acyclic(ConfigEdges(cfg))
    ensures r.Ok? ==> && r.value.nodes == ConfigNodes(cfg)
                      && r.value.edges == ConfigEdges(cfg)
                      && r.value.weight == LinkWeights(Links(cfg.metrics))
                      && r.value.weight.Keys == FactorEdges(cfg.metrics)
                      && Acyclic(r.value.edges)
    ensures !MeasuresFresh(cfg.measures) ==> r.Err? && r.error.MeasureInGraph?
    ensures MeasuresFresh(cfg.measures) && !MetricsFresh(MeasureNodes(cfg.measures), cfg.metrics) ==>
              r.Err? && r.error.MetricInGraph?
    ensures MeasuresFresh(cfg.measures) && MetricsFresh(MeasureNodes(cfg.measures), cfg.metrics)
            && !FactorsResolve(ConfigNodes(cfg), cfg.metrics) ==>
              r.Err? && r.error.FactorNotInGraph? && r.error.name !in ConfigNodes(cfg)
    ensures MeasuresFresh(cfg.measures) && MetricsFresh(MeasureNodes(cfg.measures), cfg.metrics)
            && FactorsResolve(ConfigNodes(cfg), cfg.metrics) && !Acyclic(ConfigEdges(cfg)) ==>
              r == Err(NotADag)
  {
    var g1 :- AddMeasures(cfg.measures);
    var g2 :- AddMetricNodes(g1, cfg.metrics);
    LinksResolve(g2.nodes, cfg.metrics);
    var g3 :- AddLinks(g2, Links(cfg.metrics));
    assert map[] + LinkWeights(Links(cfg.metrics)) == LinkWeights(Links(cfg.metrics));
    if IsDag(g3.nodes, g3.edges) then Ok(g3) else Err(NotADag)
  }
}

/** Consequences of the construction: the rejections a configuration author
    meets, and the graph of a small car-buying configuration. */
module ConfigGraphFacts {
  import opened Results
  import opened Digraph
  import opened ConfigGraph

  /** Two measures with one name are rejected. */
  lemma DuplicateMeasureRejected(cfg: Config, i: int, j: int)
    requires 0 <= i < j < |cfg.measures|
    requires cfg.measures[i].name == cfg.measures[j].name
    ensures CreateGraph(cfg).Err? && CreateGraph(cfg).error.MeasureInGraph?
  {
    var ms := cfg.measures;
    assert ms[..j][i] == ms[i];
    assert ms[i] in ms[..j];
    assert !MeasureFreshAt(ms, j);
  }

  /** A measure named after the data source of an earlier measure is rejected. */
  lemma MeasureNamedAfterEarlierSourceRejected(cfg: Config, i: int, j: int)
    requires 0 <= i < j < |cfg.measures|
    requires cfg.measures[i].source == cfg.measures[j].name
    ensures CreateGraph(cfg).Err? && CreateGraph(cfg).error.MeasureInGraph?
  {
    var ms := cfg.measures;
    assert ms[..j][i] == ms[i];
    assert ms[i] in ms[..j];
    assert !MeasureFreshAt(ms, j);
  }

  /** Once the measures are accepted, a metric named after any measure or data
      source is rejected. */
  lemma MetricNamedAfterMeasureNodeRejected(cfg: Config, j: int)
    requires MeasuresFresh(cfg.measures)
    requires 0 <= j < |cfg.metrics|
    requires cfg.metrics[j].name in MeasureNodes(cfg.measures)
    ensures CreateGraph(cfg).Err? && CreateGraph(cfg).error.MetricInGraph?
  {
    assert !MetricFreshAt(MeasureNodes(cfg.measures), cfg.metrics, j);
  }

  /** Two metrics with one name are rejected once the measures are accepted. */
  lemma DuplicateMetricRejected(cfg: Config, i: int, j: int)
    requires MeasuresFresh(cfg.measures)
    requires 0 <= i < j < |cfg.metrics|
    requires cfg.metrics[i].name == cfg.metrics[j].name
    ensures CreateGraph(cfg).Err? && CreateGraph(cfg).error.MetricInGraph?
  {
    var mets := cfg.metrics;
    assert mets[..j][i] == mets[i];
    assert mets[i] in mets[..j];
    assert !MetricFreshAt(MeasureNodes(cfg.measures), mets, j);
  }

  /** A measure reading a column of its own name makes a self-loop. */
  lemma SelfSourcedMeasureIsCyclic(x: string)
    ensures CreateGraph(Config([Measure(x, x)], [])) == Err(NotADag)
  {
    var cfg := Config([Measure(x, x)], []);
    assert MeasureFreshAt(cfg.measures, 0);
    assert IsCycle(ConfigEdges(cfg), [x, x]);
  }

  /** A factor may name a raw data source rather than a measure or a metric. */
  lemma SourceAsFactorAccepted(src: string, name: string, metric: string, w: real)
    requires src != name && metric != src && metric != name
    ensures CreateGraph(Config([Measure(name, src)], [Metric(metric, [Factor(src, w)])])).Ok?
  {
    var cfg := Config([Measure(name, src)], [Metric(metric, [Factor(src, w)])]);
    assert MeasureNodes(cfg.measures) == {src, name};
    assert MeasureFreshAt(cfg.measures, 0);
    assert MetricFreshAt(MeasureNodes(cfg.measures), cfg.metrics, 0);
    assert FactorEdges(cfg.metrics) == {(src, metric)};
    RankedAcyclic(ConfigEdges(cfg), map[src := 0, name := 1, metric := 1]);
  }

  lemma RepeatedFactorAccepted(src: string, name: string, metric: string, w1: real, w2: real)
    requires src != name && metric != src && metric != name
    ensures CreateGraph(Config([Measure(name, src)], [Metric(metric, [Factor(name, w1), Factor(name, w2)])])).Ok?
  {
    var cfg := Config([Measure(name, src)], [Metric(metric, [Factor(name, w1), Factor(name, w2)])]);
    assert MeasureNodes(cfg.measures) == {src, name};
    assert MeasureFreshAt(cfg.measures, 0);
    assert MetricFreshAt(MeasureNodes(cfg.measures), cfg.metrics, 0);
    assert FactorEdges(cfg.metrics) == {(name, metric)};
    RankedAcyclic(ConfigEdges(cfg), map[src := 0, name := 1, metric := 2]);
  }

  /** A factor listed twice keeps the weight of its later listing. */
  lemma LaterFactorWeightWins(src: string, name: string, metric: string, w1: real, w2: real)
    requires src != name && metric != src && metric != name
    ensures var r := CreateGraph(Config([Measure(name, src)], [Metric(metric, [Factor(name, w1), Factor(name, w2)])]));
      r.Ok? && (name, metric) in r.value.weight && r.value.weight[(name, metric)] == w2
  {
    var cfg := Config([Measure(name, src)], [Metric(metric, [Factor(name, w1), Factor(name, w2)])]);
    RepeatedFactorAccepted(src, name, metric, w1, w2);
    var links := Links(cfg.metrics);
    assert cfg.metrics[1..] == [];
    assert Links(cfg.metrics[1..]) == [];
    assert links == MetricLinks(cfg.metrics[0]) + Links(cfg.metrics[1..]);
    assert links[1] == Link(name, metric, w2) && |links| == 2;
    assert LastFor(links, 1);
  }

  // ----- A car-buying configuration: five measures over five data columns,
  // two intermediate metrics and a final one -----

  function CarMeasures(): seq<Measure> {
    [Measure("Cost", "cost"), Measure("Size", "size"), Measure("Looks", "looks"),
     Measure("Economy", "economy"), Measure("Power", "power")]
  }

  function CarMetrics(): seq<Metric> {
    [Metric("smart", [Factor("Cost", 1.0), Factor("Size", 1.0), Factor("Economy", 1.0)]),
     Metric("fun", [Factor("Power", 1.0), Factor("Looks", 1.0)]),
     Metric("final", [Factor("smart", 1.0), Factor("fun", 1.0)])]
  }

  function CarNodes(): set<Node> {
    {"cost", "size", "looks", "economy", "power",
     "Cost", "Size", "Looks", "Economy", "Power",
     "smart", "fun", "final"}
  }

  function CarEdges(): set<Edge> {
    {("cost", "Cost"), ("size", "Size"), ("looks", "Looks"), ("economy", "Economy"), ("power", "Power"),
     ("Cost", "smart"), ("Size", "smart"), ("Economy", "smart"),
     ("Power", "fun"), ("Looks", "fun"),
     ("smart", "final"), ("fun", "final")}
  }

  lemma CarMeasureNodes()
    ensures MeasureNodes(CarMeasures()) ==
      {"cost", "size", "looks", "economy", "power", "Cost", "Size", "Looks", "Economy", "Power"}
  {
    var ms := CarMeasures();
    assert ms[0] in ms && ms[1] in ms && ms[2] in ms && ms[3] in ms && ms[4] in ms;
  }

  lemma CarMeasureEdges()
    ensures MeasureEdges(CarMeasures()) ==
      {("cost", "Cost"), ("size", "Size"), ("looks", "Looks"), ("economy", "Economy"), ("power", "Power")}
  {
    var ms := CarMeasures();
    assert ms[0] in ms && ms[1] in ms && ms[2] in ms && ms[3] in ms && ms[4] in ms;
  }

  lemma CarMetricNames()
    ensures MetricNames(CarMetrics()) == {"smart", "fun", "final"}
  {
    var mets := CarMetrics();
    assert mets[0] in mets && mets[1] in mets && mets[2] in mets;
  }

  lemma CarMeasureFreshAt(i: int)
    requires 0 <= i < |CarMeasures()|
    ensures MeasureFreshAt(CarMeasures(), i)
  {
    var ms := CarMeasures();
    assert forall m :: m in ms[..i] ==> m.name != ms[i].name && m.source != ms[i].name;
  }

  lemma CarMetricFreshAt(i: int)
    requires 0 <= i < |CarMetrics()|
    ensures MetricFreshAt(MeasureNodes(CarMeasures()), CarMetrics(), i)
  {
    var ms, mets := CarMeasures(), CarMetrics();
    assert forall m :: m in ms ==> m.name != mets[i].name && m.source != mets[i].name;
    assert mets[i].name !in MeasureNodes(ms);
    assert forall m :: m in mets[..i] ==> m.name != mets[i].name;
    assert mets[i].name !in MetricNames(mets[..i]);
  }

  lemma CarFactorEdges()
    ensures FactorEdges(CarMetrics()) ==
      {("Cost", "smart"), ("Size", "smart"), ("Economy", "smart"),
       ("Power", "fun"), ("Looks", "fun"), ("smart", "final"), ("fun", "final")}
  {
  }

  lemma CarMetricResolves(k: int)
    requires 0 <= k < |CarMetrics()|
    ensures forall f :: f in CarMetrics()[k].factors ==> f.name in CarNodes()
  {
  }

  lemma CarFactorsResolve()
    ensures FactorsResolve(ConfigNodes(Config(CarMeasures(), CarMetrics())), CarMetrics())
  {
    CarConfigSets();
    var mets := CarMetrics();
    forall k | 0 <= k < |mets| ensures forall f :: f in mets[k].factors ==> f.name in CarNodes() {
      CarMetricResolves(k);
    }
  }

  lemma CarAcyclic()
    ensures Acyclic(CarEdges())
  {
    RankedAcyclic(CarEdges(), map["cost" := 0, "size" := 0, "looks" := 0, "economy" := 0, "power" := 0,
                                  "Cost" := 1, "Size" := 1, "Looks" := 1, "Economy" := 1, "Power" := 1,
                                  "smart" := 2, "fun" := 2, "final" := 3]);
  }

  lemma CarConfigSets()
    ensures ConfigNodes(Config(CarMeasures(), CarMetrics())) == CarNodes()
    ensures ConfigEdges(Config(CarMeasures(), CarMetrics())) == CarEdges()
  {
    CarMeasureNodes();
    CarMetricNames();
    CarMeasureEdges();
    CarFactorEdges();
  }

  /** The car configuration yields exactly the expected thirteen nodes and
      twelve edges. */
  lemma CarGraph()
    ensures var r := CreateGraph(Config(CarMeasures(), CarMetrics()));
      r.Ok? && r.value.nodes == CarNodes() && r.value.edges == CarEdges()
  {
    forall i | 0 <= i < |CarMeasures()| ensures MeasureFreshAt(CarMeasures(), i) {
      CarMeasureFreshAt(i);
    }
    forall i | 0 <= i < |CarMetrics()| ensures MetricFreshAt(MeasureNodes(CarMeasures()), CarMetrics(), i) {
      CarMetricFreshAt(i);
    }
    CarFactorsResolve();
    CarConfigSets();
    CarAcyclic();
  }
}
