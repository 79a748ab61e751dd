/**
 * The inspection snapshot of `export_graph_data` (app.py): one entry per node with
 * its columns and column count, and one entry per edge in networkx's iteration order
 * for a multigraph: source nodes in node order, then each source's targets in the
 * order its first edge to them was added, then the parallel edges in key order.
 * The snapshot lists every edge once and keeps the order of parallel edges, so
 * resolving joins over it gives the same records as over the graph.
 */
module GraphExport {
  import opened KnowledgeGraph
  import opened Wrappers
  import opened Text
  import opened JoinResolver
  import opened PairLoop

  /** One `nodes` entry: `table_name`, `columns` and `column_count`. */
  datatype NodeEntry = NodeEntry(tableName: string, columns: seq<string>, columnCount: nat)

  /**
   * The snapshot. An `edges` entry has the seven fields of an edge (`from`, `to`,
   * `source_columns`, `target_columns`, `join_type`, `context`, `description`), so it
   * is represented by the edge itself.
   */
  datatype Snapshot = Snapshot(nodes: seq<NodeEntry>, edges: seq<Edge>)

  function NodeEntryOf(n: Node): (r: NodeEntry)
    ensures r.tableName == n.name && r.columns == n.columns
    ensures r.columnCount == |r.columns|
  {
    NodeEntry(n.name, n.columns, |n.columns|)
  }

  /** Some stored edge goes from `s` to `t`. */
  predicate HasEdge(edges: seq<Edge>, s: string, t: string) {
    exists k :: 0 <= k < |edges| && edges[k].fromTable == s && edges[k].toTable == t
  }

  /**
   * The successors of `s` in networkx's adjacency order: each target once, placed
   * where the first edge from `s` to it was added.
   */
  function Targets(edges: seq<Edge>, s: string): (r: seq<string>)
    ensures Distinct(r)
  {
    if |edges| == 0 then []
    else
      var earlier := Targets(edges[..|edges| - 1], s);
      var e := edges[|edges| - 1];
      if e.fromTable == s && e.toTable !in earlier then earlier + [e.toTable] else earlier
  }

  /** A table is a successor of `s` exactly when some edge goes there from `s`. */
  lemma {:induction false} TargetsMembership(edges: seq<Edge>, s: string)
    ensures forall t :: t in Targets(edges, s) <==> HasEdge(edges, s, t)
  {
    if |edges| > 0 {
      var init := edges[..|edges| - 1];
      TargetsMembership(init, s);
      forall t ensures HasEdge(edges, s, t) <==> HasEdge(init, s, t) || (edges[|edges| - 1].fromTable == s && edges[|edges| - 1].toTable == t) {
        if HasEdge(edges, s, t) {
          var k :| 0 <= k < |edges| && edges[k].fromTable == s && edges[k].toTable == t;
          if k < |init| {
            assert init[k] == edges[k];
          }
        }
        if HasEdge(init, s, t) {
          var k :| 0 <= k < |init| && init[k].fromTable == s && init[k].toTable == t;
          assert edges[k] == init[k];
        }
      }
    }
  }

  /** The edges from `s` to each of `targets` in turn, parallel edges in key order. */
  function Fan(edges: seq<Edge>, s: string, targets: seq<string>): seq<Edge> {
    if |targets| == 0 then []
    else EdgesFrom(edges, s, targets[0]) + Fan(edges, s, targets[1..])
  }

  /** The edges leaving each of `sources` in turn. */
  function Outgoing(edges: seq<Edge>, sources: seq<string>): seq<Edge> {
    if |sources| == 0 then []
    else Fan(edges, sources[0], Targets(edges, sources[0])) + Outgoing(edges, sources[1..])
  }

  /** `export_graph_data()`. */
  function ExportGraph(g: Graph): (r: Snapshot)
    ensures |r.nodes| == |g.nodes|
    ensures forall k :: 0 <= k < |g.nodes| ==>
              r.nodes[k].tableName == g.nodes[k].name && r.nodes[k].columns == g.nodes[k].columns
              && r.nodes[k].columnCount == |g.nodes[k].columns|
  {
    Snapshot(seq(|g.nodes|, k requires 0 <= k < |g.nodes| => NodeEntryOf(g.nodes[k])),
             Outgoing(g.edges, NodeNames(g.nodes)))
  }

  /** Selecting a pair twice selects it once, and selecting two different pairs selects nothing. */
  lemma {:induction false} EdgesFromTwice(edges: seq<Edge>, a: string, b: string, s: string, t: string)
    ensures EdgesFrom(EdgesFrom(edges, a, b), s, t) == if a == s && b == t then EdgesFrom(edges, s, t) else []
  {
    if |edges| > 0 {
      EdgesFromTwice(edges[1..], a, b, s, t);
      var rest := EdgesFrom(edges[1..], a, b);
      if edges[0].fromTable == a && edges[0].toTable == b {
        assert EdgesFrom(edges, a, b) == [edges[0]] + rest;
        EdgesFromAppend([edges[0]], rest, s, t);
      }
    }
  }

  /** The part of a fan that goes from `s` to `t`. */
  lemma {:induction false} FanPair(edges: seq<Edge>, a: string, targets: seq<string>, s: string, t: string)
    requires Distinct(targets)
    ensures EdgesFrom(Fan(edges, a, targets), s, t)
            == if a == s && t in targets then EdgesFrom(edges, s, t) else []
  {
    if |targets| > 0 {
      var rest := targets[1..];
      DistinctTail(targets);
      FanPair(edges, a, rest, s, t);
      var first := EdgesFrom(edges, a, targets[0]);
      assert Fan(edges, a, targets) == first + Fan(edges, a, rest);
      EdgesFromAppend(first, Fan(edges, a, rest), s, t);
      EdgesFromTwice(edges, a, targets[0], s, t);
      assert t in targets <==> t == targets[0] || t in rest;
      if t == targets[0] {
        assert EdgesFrom(Fan(edges, a, rest), s, t) == [];
      } else {
        assert EdgesFrom(first, s, t) == [];
      }
    }
  }

  /** The part of the exported edge list that goes from `s` to `t`. */
  lemma {:induction false} OutgoingPair(edges: seq<Edge>, sources: seq<string>, s: string, t: string)
    requires Distinct(sources)
    ensures EdgesFrom(Outgoing(edges, sources), s, t)
            == if s in sources && t in Targets(edges, s) then EdgesFrom(edges, s, t) else []
  {
    if |sources| > 0 {
      var rest := sources[1..];
      DistinctTail(sources);
      OutgoingPair(edges, rest, s, t);
      var a := sources[0];
      var fan := Fan(edges, a, Targets(edges, a));
      assert Outgoing(edges, sources) == fan + Outgoing(edges, rest);
      EdgesFromAppend(fan, Outgoing(edges, rest), s, t);
      FanPair(edges, a, Targets(edges, a), s, t);
      assert s in sources <==> s == a || s in rest;
      if s == a {
        assert EdgesFrom(Outgoing(edges, rest), s, t) == [];
      } else {
        assert EdgesFrom(fan, s, t) == [];
      }
    }
  }

  /**
   * In a well-formed graph, the snapshot holds, for every ordered pair of tables,
   * exactly the edges the graph stores for it, in the same order.
   */
  lemma ExportKeepsPairs(g: Graph, s: string, t: string)
    requires WellFormed(g)
    ensures EdgesFrom(ExportGraph(g).edges, s, t) == EdgesFrom(g.edges, s, t)
  {
    var names := NodeNames(g.nodes);
    NamesDistinct(g.nodes);
    OutgoingPair(g.edges, names, s, t);
    if |EdgesFrom(g.edges, s, t)| > 0 {
      PairPresent(g, s, t);
    }
  }

  lemma NamesDistinct(nodes: seq<Node>)
    requires DistinctNames(nodes)
    ensures Distinct(NodeNames(nodes))
  {
  }

  /** A pair the graph stores an edge for has its source among the nodes and its target among the source's successors. */
  lemma PairPresent(g: Graph, s: string, t: string)
    requires WellFormed(g) && |EdgesFrom(g.edges, s, t)| > 0
    ensures s in NodeNames(g.nodes) && t in Targets(g.edges, s)
  {
    EdgesFromMembership(g.edges, s, t);
    var e := EdgesFrom(g.edges, s, t)[0];
    assert e in g.edges && e.fromTable == s && e.toTable == t;
    var k :| 0 <= k < |g.edges| && g.edges[k] == e;
    assert HasEdge(g.edges, s, t);
    TargetsMembership(g.edges, s);
  }

  /** In a well-formed graph, the snapshot lists every edge exactly as often as the graph stores it. */
  lemma ExportIsPermutation(g: Graph)
    requires WellFormed(g)
    ensures multiset(ExportGraph(g).edges) == multiset(g.edges)
  {
    var out := ExportGraph(g).edges;
    forall x ensures multiset(out)[x] == multiset(g.edges)[x] {
      ExportKeepsPairs(g, x.fromTable, x.toTable);
      EdgesFromCount(out, x.fromTable, x.toTable, x);
      EdgesFromCount(g.edges, x.fromTable, x.toTable, x);
    }
  }

  /**
   * Resolving joins over the exported edge list gives exactly the records the graph
   * gives, for any tables and context.
   */
  lemma ExportKeepsJoins(g: Graph, tables: seq<string>, lower: Fold, context: Option<string>)
    requires WellFormed(g)
    ensures JoinRelationships(Graph(g.nodes, ExportGraph(g).edges), tables, lower, context)
            == JoinRelationships(g, tables, lower, context)
  {
    var h := Graph(g.nodes, ExportGraph(g).edges);
    forall i, j | 0 <= i < j < |tables|
      ensures PairFn(h, tables, lower, context)(i, j) == PairFn(g, tables, lower, context)(i, j)
    {
      ExportKeepsPairs(g, tables[i], tables[j]);
      ExportKeepsPairs(g, tables[j], tables[i]);
    }
    RowsCongruence(PairFn(h, tables, lower, context), PairFn(g, tables, lower, context), |tables|, 0);
  }
}
