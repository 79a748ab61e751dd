/**
 * Connecting-table discovery (`get_all_tables_needed` in app.py): the requested
 * tables together with every table on a shortest path between two of them, in the
 * graph read as undirected. Shortest paths are found breadth-first: `Layer(g, a, k)`
 * is the set of tables within `k` steps of `a`.
 */
module Paths {
  import opened Wrappers
  import opened KnowledgeGraph

  /** `u` and `v` are joined by an edge in either direction (`graph.to_undirected()`). */
  predicate Adjacent(g: Graph, u: string, v: string) {
    exists k :: 0 <= k < |g.edges|
                && ((g.edges[k].fromTable == u && g.edges[k].toTable == v)
                    || (g.edges[k].fromTable == v && g.edges[k].toTable == u))
  }

  /** `p` is a walk of graph nodes from `a` to `b` along undirected edges. */
  predicate IsPath(g: Graph, p: seq<string>, a: string, b: string) {
    |p| >= 1 && p[0] == a && p[|p| - 1] == b && NodesIn(g, p) && Linked(g, p)
  }

  /** Every entry of `p` is a graph node. */
  predicate NodesIn(g: Graph, p: seq<string>) {
    forall i :: 0 <= i < |p| ==> p[i] in NodeSet(g)
  }

  /** Consecutive entries of `p` are adjacent. */
  predicate Linked(g: Graph, p: seq<string>) {
    forall i :: 0 <= i < |p| - 1 ==> Adjacent(g, p[i], p[i + 1])
  }

  /** No path from `a` to `b` has fewer nodes than `p`. */
  ghost predicate IsShortestPath(g: Graph, p: seq<string>, a: string, b: string) {
    IsPath(g, p, a, b) && forall q :: IsPath(g, q, a, b) ==> |p| <= |q|
  }

  ghost predicate Connected(g: Graph, a: string, b: string) {
    exists p :: IsPath(g, p, a, b)
  }

  /** One breadth-first step: the reached tables and all their neighbours. */
  function Step(g: Graph, reached: set<string>): set<string> {
    reached + set v | v in NodeSet(g) && exists u :: u in reached && Adjacent(g, u, v)
  }

  /** The tables within `k` undirected steps of `a`. */
  function Layer(g: Graph, a: string, k: nat): set<string> {
    if k == 0 then {a} else Step(g, Layer(g, a, k - 1))
  }

  lemma {:induction false} LayerInGraph(g: Graph, a: string, k: nat)
    requires a in NodeSet(g)
    ensures Layer(g, a, k) <= NodeSet(g)
  {
    if k > 0 {
      LayerInGraph(g, a, k - 1);
    }
  }

  lemma {:induction false} LayerMonotone(g: Graph, a: string, i: nat, k: nat)
    requires i <= k
    ensures Layer(g, a, i) <= Layer(g, a, k)
    decreases k - i
  {
    if i < k {
      LayerMonotone(g, a, i, k - 1);
    }
  }

  /** Once a step adds nothing, no later step does. */
  lemma {:induction false} LayerStable(g: Graph, a: string, k: nat, m: nat)
    requires Step(g, Layer(g, a, k)) == Layer(g, a, k)
    requires k <= m
    ensures Layer(g, a, m) == Layer(g, a, k)
    decreases m - k
  {
    if k < m {
      LayerStable(g, a, k, m - 1);
      assert Layer(g, a, m) == Step(g, Layer(g, a, m - 1));
    }
  }

  /** The end of a path with `n` nodes is within `n - 1` steps of its start. */
  lemma {:induction false} PathWithinLayer(g: Graph, p: seq<string>, a: string, b: string)
    requires IsPath(g, p, a, b)
    ensures b in Layer(g, a, |p| - 1)
  {
    if |p| > 1 {
      var q := p[..|p| - 1];
      assert IsPath(g, q, a, p[|p| - 2]);
      PathWithinLayer(g, q, a, p[|p| - 2]);
      assert Adjacent(g, p[|p| - 2], b);
    }
  }

  lemma SubsetCardinality(a: set<string>, b: set<string>)
    requires a <= b
    ensures |a| <= |b|
    ensures a != b ==> |a| < |b|
  {
    assert b == a + (b - a);
    if a != b {
      var x :| x in b - a;
      assert |b - a| >= 1;
    }
  }

  /** `b` is not within `i` steps of `a` for any `i < k`. */
  predicate Unreached(g: Graph, a: string, b: string, k: nat) {
    forall i: nat :: i < k ==> b !in Layer(g, a, i)
  }

  /** A step that adds nothing is a fixpoint: a table outside that layer is never reached. */
  lemma NeverReached(g: Graph, a: string, b: string, k: nat)
    requires Step(g, Layer(g, a, k)) == Layer(g, a, k)
    requires Unreached(g, a, b, k) && b !in Layer(g, a, k)
    ensures forall m: nat :: b !in Layer(g, a, m)
  {
    forall m: nat ensures b !in Layer(g, a, m) {
      if m >= k {
        LayerStable(g, a, k, m);
      }
    }
  }

  /** A step that adds something brings the layer strictly closer to the whole node set. */
  lemma LayerGrows(g: Graph, a: string, k: nat)
    requires a in NodeSet(g)
    requires Step(g, Layer(g, a, k)) != Layer(g, a, k)
    ensures |Layer(g, a, k)| < |Layer(g, a, k + 1)| <= |NodeSet(g)|
  {
    LayerInGraph(g, a, k + 1);
    assert Layer(g, a, k + 1) == Step(g, Layer(g, a, k));
    SubsetCardinality(Layer(g, a, k), Layer(g, a, k + 1));
    SubsetCardinality(Layer(g, a, k + 1), NodeSet(g));
  }

  lemma UnreachedStep(g: Graph, a: string, b: string, k: nat)
    requires Unreached(g, a, b, k) && b !in Layer(g, a, k)
    ensures Unreached(g, a, b, k + 1)
  {
    forall i: nat | i < k + 1 ensures b !in Layer(g, a, i) {
      if i < k {
        assert b !in Layer(g, a, i);
      }
    }
  }

  /** The layers never outgrow the node set. */
  lemma LayerBounded(g: Graph, a: string, k: nat)
    requires a in NodeSet(g)
    ensures |Layer(g, a, k)| <= |NodeSet(g)|
  {
    LayerInGraph(g, a, k);
    SubsetCardinality(Layer(g, a, k), NodeSet(g));
  }

  /**
   * Breadth-first search for `b`, from layer `k` on: the least `d` with `b` within `d`
   * steps of `a`, or `None` once a step reaches nothing new without having met `b`.
   */
  function Search(g: Graph, a: string, b: string, k: nat): (d: Option<nat>)
    requires a in NodeSet(g)
    requires Unreached(g, a, b, k)
    ensures d.Some? ==> b in Layer(g, a, d.value) && Unreached(g, a, b, d.value)
    ensures d.None? ==> forall m: nat :: b !in Layer(g, a, m)
    decreases |NodeSet(g)| - |Layer(g, a, k)|
  {
    LayerBounded(g, a, k);
    if b in Layer(g, a, k) then Some(k)
    else if Step(g, Layer(g, a, k)) == Layer(g, a, k) then
      NeverReached(g, a, b, k);
      None
    else
      LayerGrows(g, a, k);
      UnreachedStep(g, a, b, k);
      Search(g, a, b, k + 1)
  }

  /** The first node of `nodes`, in graph order, that lies in `prev` and is adjacent to `v`. */
  function Predecessor(g: Graph, nodes: seq<Node>, prev: set<string>, v: string): (u: string)
    requires exists u :: u in NodeNames(nodes) && u in prev && Adjacent(g, u, v)
    ensures u in prev && Adjacent(g, u, v)
  {
    if nodes[0].name in prev && Adjacent(g, nodes[0].name, v) then nodes[0].name
    else
      assert forall u :: u in NodeNames(nodes) && u != nodes[0].name ==> u in NodeNames(nodes[1..]) by {
        forall u | u in NodeNames(nodes) && u != nodes[0].name ensures u in NodeNames(nodes[1..]) {
          var k :| 0 <= k < |nodes| && NodeNames(nodes)[k] == u;
          assert NodeNames(nodes[1..])[k - 1] == u;
        }
      }
      Predecessor(g, nodes[1..], prev, v)
  }

  /** A table first reached at step `k` has a neighbour reached at step `k - 1`. */
  lemma HasPredecessor(g: Graph, a: string, v: string, k: nat)
    requires a in NodeSet(g) && 0 < k
    requires v in Layer(g, a, k) && v !in Layer(g, a, k - 1)
    ensures exists u :: u in NodeNames(g.nodes) && u in Layer(g, a, k - 1) && Adjacent(g, u, v)
  {
    LayerInGraph(g, a, k - 1);
    var u :| u in Layer(g, a, k - 1) && Adjacent(g, u, v);
    assert u in NodeNames(g.nodes);
  }

  lemma SingletonPath(g: Graph, a: string)
    requires a in NodeSet(g)
    ensures IsPath(g, [a], a, a)
  {
  }

  /** A path extended by one adjacent node is a path. */
  lemma PathExtend(g: Graph, p: seq<string>, a: string, u: string, v: string)
    requires IsPath(g, p, a, u) && Adjacent(g, u, v) && v in NodeSet(g)
    ensures IsPath(g, p + [v], a, v)
  {
    var q := p + [v];
    assert forall i :: 0 <= i < |p| ==> q[i] == p[i];
  }

  /** The neighbour, one step closer to `a`, through which a table first reached at step `k` is reached. */
  function LayerPredecessor(g: Graph, a: string, v: string, k: nat): (u: string)
    requires a in NodeSet(g) && 0 < k
    requires v in Layer(g, a, k) && v !in Layer(g, a, k - 1)
    ensures u in Layer(g, a, k - 1) && Adjacent(g, u, v) && v in NodeSet(g)
  {
    HasPredecessor(g, a, v, k);
    LayerInGraph(g, a, k);
    Predecessor(g, g.nodes, Layer(g, a, k - 1), v)
  }

  /** A path from `a` to a table `v` within `k` steps, walking back through the layers. */
  function BackPath(g: Graph, a: string, v: string, k: nat): (p: seq<string>)
    requires a in NodeSet(g) && v in Layer(g, a, k)
    ensures IsPath(g, p, a, v) && |p| <= k + 1
    decreases k, 1
  {
    if k == 0 then
      assert v == a;
      SingletonPath(g, a);
      [a]
    else if v in Layer(g, a, k - 1) then BackPath(g, a, v, k - 1)
    else
      var u := LayerPredecessor(g, a, v, k);
      StepBack(g, a, u, v, k)
  }

  /** The path to `v` through its neighbour `u`, one step closer to `a`: the path to `u`, then `v`. */
  function StepBack(g: Graph, a: string, u: string, v: string, k: nat): (p: seq<string>)
    requires a in NodeSet(g) && 0 < k && u in Layer(g, a, k - 1)
    requires Adjacent(g, u, v) && v in NodeSet(g)
    ensures IsPath(g, p, a, v) && |p| <= k + 1
    decreases k, 0
  {
    var p := BackPath(g, a, u, k - 1);
    PathExtend(g, p, a, u, v);
    p + [v]
  }

  /** The outcome of `nx.shortest_path` on the undirected graph. */
  datatype PathResult = NodeNotFound | NoPath | Found(path: seq<string>)

  /**
   * `nx.shortest_path(graph.to_undirected(), a, b)`: `NodeNotFound` when either table
   * is not a node, `NoPath` when they are not connected, and otherwise a shortest path.
   */
  function ShortestPath(g: Graph, a: string, b: string): (r: PathResult)
    ensures r.NodeNotFound? <==> a !in NodeSet(g) || b !in NodeSet(g)
    ensures r.NoPath? ==> !Connected(g, a, b)
    ensures r.Found? ==> IsShortestPath(g, r.path, a, b)
  {
    if a !in NodeSet(g) || b !in NodeSet(g) then NodeNotFound
    else
      match Search(g, a, b, 0)
      case None =>
        assert !Connected(g, a, b) by {
          forall q | IsPath(g, q, a, b) ensures false {
            PathWithinLayer(g, q, a, b);
          }
        }
        NoPath
      case Some(d) =>
        var p := BackPath(g, a, b, d);
        assert forall q :: IsPath(g, q, a, b) ==> |p| <= |q| by {
          forall q | IsPath(g, q, a, b) ensures |p| <= |q| {
            PathWithinLayer(g, q, a, b);
          }
        }
        Found(p)
  }

  /** The error `get_all_tables_needed` lets escape: a requested table that is not a node. */
  datatype MissingTable = MissingTable(source: string, target: string)

  /** `x` lies on the path a search found. */
  predicate OnPath(r: PathResult, x: string) {
    r.Found? && x in r.path
  }

  /**
   * One pass of the inner loop of `get_all_tables_needed`: the pairs `(i, j')` with
   * `j <= j'`, in order, each searched with `search`. The first pair with an unknown
   * table stops the loop.
   */
  function PairsFrom(search: (string, string) -> PathResult, tables: seq<string>, i: nat, j: nat)
    : (r: Result<set<string>, MissingTable>)
    requires i < |tables|
    ensures r.Err? <==> exists j' :: j <= j' < |tables| && search(tables[i], tables[j']).NodeNotFound?
    ensures r.Ok? ==> forall j', x :: j <= j' < |tables| && OnPath(search(tables[i], tables[j']), x) ==> x in r.value
    ensures r.Ok? ==> forall x :: x in r.value ==> exists j' :: j <= j' < |tables| && OnPath(search(tables[i], tables[j']), x)
    decreases |tables| - j
  {
    if j >= |tables| then Ok({})
    else
      var rest := PairsFrom(search, tables, i, j + 1);
      match search(tables[i], tables[j])
      case NodeNotFound => Err(MissingTable(tables[i], tables[j]))
      case NoPath => rest
      case Found(p) =>
        if rest.Err? then rest
        else Ok((set x | x in p) + rest.value)
  }

  /** The outer loop from row `i` on: every pair `(i', j')` with `i <= i' < j'`, in order. */
  function Collect(search: (string, string) -> PathResult, tables: seq<string>, i: nat)
    : Result<set<string>, MissingTable>
    decreases |tables| - i
  {
    if i >= |tables| then Ok({})
    else
      match PairsFrom(search, tables, i, i + 1)
      case Err(e) => Err(e)
      case Ok(row) =>
        match Collect(search, tables, i + 1)
        case Err(e) => Err(e)
        case Ok(later) => Ok(row + later)
  }

  /** The loop stops with an error exactly when some pair from row `i` on has an unknown table. */
  lemma {:induction false} CollectFails(search: (string, string) -> PathResult, tables: seq<string>, i: nat)
    ensures Collect(search, tables, i).Err? <==>
              exists i', j' :: i <= i' < j' < |tables| && search(tables[i'], tables[j']).NodeNotFound?
    decreases |tables| - i
  {
    if i < |tables| {
      CollectFails(search, tables, i + 1);
      var row := PairsFrom(search, tables, i, i + 1);
      if row.Err? {
        var j' :| i + 1 <= j' < |tables| && search(tables[i], tables[j']).NodeNotFound?;
      } else if Collect(search, tables, i + 1).Err? {
        var i', j' :| i + 1 <= i' < j' < |tables| && search(tables[i'], tables[j']).NodeNotFound?;
      } else {
        forall i', j' | i <= i' < j' < |tables| ensures !search(tables[i'], tables[j']).NodeNotFound? {
          if i' == i {
            assert i + 1 <= j' < |tables|;
          }
        }
      }
    }
  }

  /** Every table on a path found for a pair from row `i` on is collected. */
  lemma {:induction false} CollectCovers(search: (string, string) -> PathResult, tables: seq<string>, i: nat)
    requires Collect(search, tables, i).Ok?
    ensures forall i', j', x :: i <= i' < j' < |tables| && OnPath(search(tables[i'], tables[j']), x) ==>
              x in Collect(search, tables, i).value
    decreases |tables| - i
  {
    if i < |tables| {
      CollectCovers(search, tables, i + 1);
      var row := PairsFrom(search, tables, i, i + 1).value;
      var later := Collect(search, tables, i + 1).value;
      assert Collect(search, tables, i).value == row + later;
      forall i', j', x | i <= i' < j' < |tables| && OnPath(search(tables[i'], tables[j']), x)
        ensures x in row + later
      {
        if i' == i {
          assert x in row;
        } else {
          assert x in later;
        }
      }
    }
  }

  /** Every collected table lies on a path found for a pair from row `i` on. */
  lemma {:induction false} CollectOnly(search: (string, string) -> PathResult, tables: seq<string>, i: nat)
    requires Collect(search, tables, i).Ok?
    ensures forall x :: x in Collect(search, tables, i).value ==>
              exists i', j' :: i <= i' < j' < |tables| && OnPath(search(tables[i'], tables[j']), x)
    decreases |tables| - i
  {
    if i < |tables| {
      CollectOnly(search, tables, i + 1);
      var row := PairsFrom(search, tables, i, i + 1).value;
      var later := Collect(search, tables, i + 1).value;
      assert Collect(search, tables, i).value == row + later;
      forall x | x in row + later
        ensures exists i', j' :: i <= i' < j' < |tables| && OnPath(search(tables[i'], tables[j']), x)
      {
        if x in row {
          var j' :| i + 1 <= j' < |tables| && OnPath(search(tables[i], tables[j']), x);
        } else {
          var i', j' :| i + 1 <= i' < j' < |tables| && OnPath(search(tables[i'], tables[j']), x);
        }
      }
    }
  }

  /** The search `get_all_tables_needed` runs on each pair. */
  function Searcher(g: Graph): (string, string) -> PathResult {
    (a, b) => ShortestPath(g, a, b)
  }

  /**
   * `get_all_tables_needed(tables)`, as a set (the source returns `list(set)`, whose
   * order Python leaves unspecified).
   */
  function TablesNeeded(g: Graph, tables: seq<string>): Result<set<string>, MissingTable> {
    match Collect(Searcher(g), tables, 0)
    case Err(e) => Err(e)
    case Ok(found) => Ok((set t | t in tables) + found)
  }

  /**
   * `get_all_tables_needed` fails exactly when two or more tables are requested and
   * one of them is not a node; a single unknown table passes through untouched.
   */
  lemma TablesNeededFails(g: Graph, tables: seq<string>)
    ensures TablesNeeded(g, tables).Err? <==>
              |tables| >= 2 && exists t :: t in tables && t !in NodeSet(g)
  {
    CollectFails(Searcher(g), tables, 0);
    if TablesNeeded(g, tables).Err? {
      var i, j :| 0 <= i < j < |tables| && Searcher(g)(tables[i], tables[j]).NodeNotFound?;
      assert tables[i] !in NodeSet(g) || tables[j] !in NodeSet(g);
    }
    if |tables| >= 2 && exists t :: t in tables && t !in NodeSet(g) {
      var t :| t in tables && t !in NodeSet(g);
      var k :| 0 <= k < |tables| && tables[k] == t;
      if k == 0 {
        assert Searcher(g)(tables[0], tables[1]).NodeNotFound?;
      } else {
        assert Searcher(g)(tables[0], tables[k]).NodeNotFound?;
      }
    }
  }

  /** Every requested table is among the tables `get_all_tables_needed` returns. */
  lemma TablesNeededKeepsRequested(g: Graph, tables: seq<string>)
    requires TablesNeeded(g, tables).Ok?
    ensures forall t :: t in tables ==> t in TablesNeeded(g, tables).value
  {
  }

  /** For every connected pair of requested tables, every table of one shortest path between them is returned. */
  lemma TablesNeededCoversPaths(g: Graph, tables: seq<string>)
    requires TablesNeeded(g, tables).Ok?
    ensures forall i, j :: 0 <= i < j < |tables| && Connected(g, tables[i], tables[j]) ==>
              exists p :: IsShortestPath(g, p, tables[i], tables[j])
                          && forall x :: x in p ==> x in TablesNeeded(g, tables).value
  {
    var search := Searcher(g);
    CollectFails(search, tables, 0);
    CollectCovers(search, tables, 0);
    var all := TablesNeeded(g, tables).value;
    forall i, j | 0 <= i < j < |tables| && Connected(g, tables[i], tables[j])
      ensures exists p :: IsShortestPath(g, p, tables[i], tables[j]) && forall x :: x in p ==> x in all
    {
      var sp := search(tables[i], tables[j]);
      assert sp == ShortestPath(g, tables[i], tables[j]);
      assert !sp.NodeNotFound?;
      assert sp.Found?;
      assert forall x :: x in sp.path ==> OnPath(search(tables[i], tables[j]), x);
      assert IsShortestPath(g, sp.path, tables[i], tables[j]);
    }
  }

  /** Every table returned beyond the requested ones lies on a shortest path between two of them. */
  lemma TablesNeededOnlyPaths(g: Graph, tables: seq<string>)
    requires TablesNeeded(g, tables).Ok?
    ensures forall x :: x in TablesNeeded(g, tables).value ==>
              x in tables || exists i, j, p :: 0 <= i < j < |tables|
                                               && IsShortestPath(g, p, tables[i], tables[j]) && x in p
  {
    var search := Searcher(g);
    CollectOnly(search, tables, 0);
    var all := TablesNeeded(g, tables).value;
    forall x | x in all && x !in tables
      ensures exists i, j, p :: 0 <= i < j < |tables| && IsShortestPath(g, p, tables[i], tables[j]) && x in p
    {
      var i, j :| 0 <= i < j < |tables| && OnPath(search(tables[i], tables[j]), x);
      var p := search(tables[i], tables[j]).path;
      assert search(tables[i], tables[j]) == ShortestPath(g, tables[i], tables[j]);
      assert IsShortestPath(g, p, tables[i], tables[j]) && x in p;
    }
  }

  /** Two known but disconnected tables need nothing more than themselves, and raise nothing. */
  lemma DisconnectedPairAddsNothing(g: Graph, a: string, b: string)
    requires a in NodeSet(g) && b in NodeSet(g)
    requires !Connected(g, a, b)
    ensures TablesNeeded(g, [a, b]) == Ok({a, b})
  {
    var search := Searcher(g);
    var tables := [a, b];
    TablesNeededFails(g, tables);
    CollectOnly(search, tables, 0);
    assert search(a, b) == ShortestPath(g, a, b);
    assert search(a, b).NoPath?;
    var found := Collect(search, tables, 0).value;
    assert forall x :: x !in found by {
      forall x | x in found ensures !OnPath(search(a, b), x) {
      }
    }
    assert found == {};
    assert TablesNeeded(g, tables) == Ok((set t | t in tables) + found);
    assert (set t | t in tables) + found == {a, b};
  }

  /** A table every path between two connected requested tables passes through is pulled in. */
  lemma BridgeTableIncluded(g: Graph, a: string, b: string, m: string)
    requires a in NodeSet(g) && b in NodeSet(g)
    requires Connected(g, a, b)
    requires forall p :: IsPath(g, p, a, b) ==> m in p
    ensures TablesNeeded(g, [a, b]).Ok? && m in TablesNeeded(g, [a, b]).value
  {
    TablesNeededFails(g, [a, b]);
    TablesNeededKeepsRequested(g, [a, b]);
    TablesNeededCoversPaths(g, [a, b]);
    TablesNeededOnlyPaths(g, [a, b]);
    assert [a, b][0] == a && [a, b][1] == b;
    var p :| IsShortestPath(g, p, a, b) && forall x :: x in p ==> x in TablesNeeded(g, [a, b]).value;
  }
}
