/**
 * The relationship graph of `TableKnowledgeGraph` (app.py): a directed multigraph
 * whose nodes are table names and whose edges are join definitions. Parallel edges
 * between the same two tables are kept apart, in insertion order, because different
 * business contexts join the same tables on different keys.
 */
module KnowledgeGraph {
  import opened Wrappers
  import opened Text

  /** One column descriptor of a table's schema. */
  datatype Column = Column(name: string, description: string, example: string)

  /** One entry of the `schemas` dictionary: a table and its ordered columns. */
  datatype TableSchema = TableSchema(name: string, columns: seq<Column>)

  /**
   * One relationship record as supplied by the loader. The optional fields are
   * `None` when the dictionary lacks the key, so that `rel.get(key, default)` applies.
   */
  datatype Relationship = Relationship(
    table1: string,
    table2: string,
    joinKey1: string,
    joinKey2: string,
    joinType: Option<string>,
    context: Option<string>,
    description: Option<string>)

  /** A table node; a table known only from a relationship has no columns. */
  datatype Node = Node(name: string, columns: seq<string>)

  /** A directed join definition `fromTable -> toTable`. */
  datatype Edge = Edge(
    fromTable: string,
    toTable: string,
    sourceColumns: seq<string>,
    targetColumns: seq<string>,
    joinType: string,
    context: string,
    description: string)

  /** Nodes in insertion order; edges in insertion order. */
  datatype Graph = Graph(nodes: seq<Node>, edges: seq<Edge>)

  const DefaultJoinType: string := "INNER"

  /** The sentinel context label of a join that applies when nothing more specific does. */
  const DefaultContext: string := "default"

  const KeySeparator: char := '+'

  /** The keys of a Python dictionary are distinct. */
  predicate UniqueTableNames(schemas: seq<TableSchema>) {
    forall i, j :: 0 <= i < j < |schemas| ==> schemas[i].name != schemas[j].name
  }

  function NodeNames(nodes: seq<Node>): (r: seq<string>)
    ensures |r| == |nodes|
    ensures forall k :: 0 <= k < |nodes| ==> r[k] == nodes[k].name
  {
    seq(|nodes|, k requires 0 <= k < |nodes| => nodes[k].name)
  }

  /** The table names of the graph's nodes. */
  function NodeSet(g: Graph): set<string> {
    set n | n in NodeNames(g.nodes)
  }

  predicate DistinctNames(nodes: seq<Node>) {
    forall i, j :: 0 <= i < j < |nodes| ==> nodes[i].name != nodes[j].name
  }

  /** Node names are unique and every edge ends at nodes of the graph. */
  predicate WellFormed(g: Graph) {
    && DistinctNames(g.nodes)
    && forall e :: e in g.edges ==> e.fromTable in NodeNames(g.nodes) && e.toTable in NodeNames(g.nodes)
  }

  function ColumnNames(columns: seq<Column>): (r: seq<string>)
    ensures |r| == |columns|
    ensures forall k :: 0 <= k < |columns| ==> r[k] == columns[k].name
  {
    seq(|columns|, k requires 0 <= k < |columns| => columns[k].name)
  }

  /** `strip()` only removes characters. */
  lemma StripKeepsAbsent(s: string, c: char)
    requires c !in s
    ensures c !in Strip(s)
  {
    var r := Strip(s);
    var a := LeadingSpaces(s);
    forall i | 0 <= i < |r| ensures r[i] != c {
      assert r[i] == s[a + i];
    }
  }

  /**
   * A composite join key `"colA + colB"` as its list of columns: the `'+'`-separated
   * pieces, each stripped of surrounding whitespace, in declared order.
   */
  function ParseKey(key: string): (r: seq<string>)
    ensures |r| == multiset(key)[KeySeparator] + 1
    ensures forall k :: 0 <= k < |r| ==> KeySeparator !in r[k] && Trimmed(r[k])
  {
    var pieces := Split(key, KeySeparator);
    SplitCount(key, KeySeparator);
    forall k | 0 <= k < |pieces| ensures KeySeparator !in Strip(pieces[k]) {
      StripKeepsAbsent(pieces[k], KeySeparator);
    }
    seq(|pieces|, k requires 0 <= k < |pieces| => Strip(pieces[k]))
  }

  /**
   * A key written as `'+'`-free segments joined by `'+'` parses to those segments, each
   * stripped, in order. Every key has this form (`Text.JoinSplit`), so this fixes
   * `ParseKey` on every input.
   */
  lemma ParseKeySegments(segs: seq<string>)
    requires |segs| >= 1
    requires forall k :: 0 <= k < |segs| ==> KeySeparator !in segs[k]
    ensures |ParseKey(Join([KeySeparator], segs))| == |segs|
    ensures forall k :: 0 <= k < |segs| ==> ParseKey(Join([KeySeparator], segs))[k] == Strip(segs[k])
  {
    SplitJoin(segs, KeySeparator);
  }

  /** Parsing a key written as clean column names joined by `'+'` yields those columns. */
  lemma ParseKeyClean(columns: seq<string>)
    requires |columns| >= 1
    requires forall k :: 0 <= k < |columns| ==> KeySeparator !in columns[k] && Trimmed(columns[k])
    ensures ParseKey(Join([KeySeparator], columns)) == columns
  {
    ParseKeySegments(columns);
    forall k | 0 <= k < |columns| ensures Strip(columns[k]) == columns[k] {
      StripTrimmed(columns[k]);
    }
  }

  /** Two clean column names written `"a + b"` parse to those two names. */
  lemma ParseTwoSpaced(a: string, b: string)
    requires Trimmed(a) && Trimmed(b) && KeySeparator !in a && KeySeparator !in b
    ensures ParseKey(a + " + " + b) == [a, b]
  {
    var segs := [a + " ", " " + b];
    var key := Join([KeySeparator], segs);
    JoinTwoSpaced(a, b);
    ParseKeySegments(segs);
    StripOneBlank(a);
    StripOneBlank(b);
    var r := ParseKey(key);
    assert |r| == 2 && r[0] == a && r[1] == b;
    PairOf(r, a, b);
  }

  lemma PairOf<T>(r: seq<T>, x: T, y: T)
    requires |r| == 2 && r[0] == x && r[1] == y
    ensures r == [x, y]
  {
  }

  lemma JoinTwoSpaced(a: string, b: string)
    ensures Join([KeySeparator], [a + " ", " " + b]) == a + " + " + b
  {
    var segs := [a + " ", " " + b];
    JoinStep([KeySeparator], segs[0], segs[1..]);
    assert segs == [segs[0]] + segs[1..];
  }

  /** The spaced composite key `"Entity + Counterparty ID"` names the columns `Entity` and `Counterparty ID`. */
  lemma ParseSpacedKey()
    ensures ParseKey("Entity + Counterparty ID") == ["Entity", "Counterparty ID"]
  {
    var key := "Entity" + " + " + "Counterparty ID";
    assert key == "Entity + Counterparty ID";
    ParseTwoSpaced("Entity", "Counterparty ID");
  }

  /** A trimmed text with one blank after it, or one before it, strips back to itself. */
  lemma StripOneBlank(c: string)
    requires Trimmed(c)
    ensures Strip(c + " ") == c && Strip(" " + c) == c
  {
    assert AllSpace(" ") && AllSpace("");
    StripPadded("", c, " ");
    assert "" + c + " " == c + " ";
    StripPadded(" ", c, "");
    assert " " + c + "" == " " + c;
  }

  /** The edge `_build_graph` adds for one relationship, with the loader's defaults applied. */
  function EdgeOf(rel: Relationship): (e: Edge)
    ensures e.fromTable == rel.table1 && e.toTable == rel.table2
    ensures e.sourceColumns == ParseKey(rel.joinKey1)
    ensures e.targetColumns == ParseKey(rel.joinKey2)
    ensures e.joinType == (if rel.joinType.Some? then rel.joinType.value else "INNER")
    ensures e.context == (if rel.context.Some? then rel.context.value else "default")
    ensures e.description
            == (if rel.description.Some? then rel.description.value
                else "Join " + rel.table1 + " with " + rel.table2)
  {
    Edge(rel.table1, rel.table2, ParseKey(rel.joinKey1), ParseKey(rel.joinKey2),
         rel.joinType.GetOr(DefaultJoinType), rel.context.GetOr(DefaultContext),
         rel.description.GetOr("Join " + rel.table1 + " with " + rel.table2))
  }

  /** networkx's implicit node creation: a missing endpoint becomes a bare node at the end. */
  function AddNode(nodes: seq<Node>, name: string): (r: seq<Node>)
    requires DistinctNames(nodes)
    ensures DistinctNames(r)
    ensures |nodes| <= |r| <= |nodes| + 1 && r[..|nodes|] == nodes
    ensures |r| == |nodes| + 1 ==> r[|nodes|] == Node(name, [])
    ensures forall n :: n in NodeNames(r) <==> n in NodeNames(nodes) || n == name
  {
    if name in NodeNames(nodes) then nodes
    else
      var r := nodes + [Node(name, [])];
      assert NodeNames(r) == NodeNames(nodes) + [name];
      assert r[..|nodes|] == nodes;
      r
  }

  predicate IsEndpoint(rels: seq<Relationship>, name: string) {
    exists k :: 0 <= k < |rels| && (rels[k].table1 == name || rels[k].table2 == name)
  }

  /** Adds the endpoints of every relationship, `table1` before `table2`, in record order. */
  function AddEndpoints(nodes: seq<Node>, rels: seq<Relationship>): (r: seq<Node>)
    requires DistinctNames(nodes)
    ensures DistinctNames(r)
    ensures |nodes| <= |r| && r[..|nodes|] == nodes
    decreases |rels|
  {
    if |rels| == 0 then nodes
    else
      var once := AddNode(nodes, rels[0].table1);
      var twice := AddNode(once, rels[0].table2);
      var r := AddEndpoints(twice, rels[1..]);
      PrefixTransitive(nodes, once, twice);
      PrefixTransitive(nodes, twice, r);
      r
  }

  /** A prefix of a prefix is a prefix. */
  lemma PrefixTransitive<T>(a: seq<T>, b: seq<T>, c: seq<T>)
    requires |a| <= |b| <= |c| && b[..|a|] == a && c[..|b|] == b
    ensures c[..|a|] == a
  {
    assert c[..|a|] == c[..|b|][..|a|];
  }

  /** The nodes after adding the endpoints are the earlier nodes and the endpoints. */
  lemma {:induction false} AddEndpointsNames(nodes: seq<Node>, rels: seq<Relationship>)
    requires DistinctNames(nodes)
    ensures forall n :: n in NodeNames(AddEndpoints(nodes, rels)) <==>
                          n in NodeNames(nodes) || IsEndpoint(rels, n)
    decreases |rels|
  {
    if |rels| > 0 {
      var twice := AddNode(AddNode(nodes, rels[0].table1), rels[0].table2);
      AddEndpointsNames(twice, rels[1..]);
      EndpointsOfTail(rels);
    }
  }

  /** Every node added for an endpoint is bare and names an endpoint. */
  lemma {:induction false} AddEndpointsFresh(nodes: seq<Node>, rels: seq<Relationship>)
    requires DistinctNames(nodes)
    ensures forall k :: |nodes| <= k < |AddEndpoints(nodes, rels)| ==>
              AddEndpoints(nodes, rels)[k].columns == [] && IsEndpoint(rels, AddEndpoints(nodes, rels)[k].name)
    decreases |rels|
  {
    if |rels| > 0 {
      var once := AddNode(nodes, rels[0].table1);
      var twice := AddNode(once, rels[0].table2);
      var r := AddEndpoints(twice, rels[1..]);
      assert r == AddEndpoints(nodes, rels);
      AddEndpointsFresh(twice, rels[1..]);
      EndpointsOfTail(rels);
      forall k | |nodes| <= k < |r| ensures r[k].columns == [] && IsEndpoint(rels, r[k].name) {
        if k < |twice| {
          assert r[k] == r[..|twice|][k] == twice[k];
          if k < |once| {
            assert twice[k] == twice[..|once|][k] == once[k];
            assert once[k] == Node(rels[0].table1, []);
          } else {
            assert twice[k] == Node(rels[0].table2, []);
          }
        }
      }
    }
  }

  /** The endpoints of a record list are those of its head and those of its tail. */
  lemma EndpointsOfTail(rels: seq<Relationship>)
    requires |rels| > 0
    ensures forall n :: IsEndpoint(rels, n) <==>
              n == rels[0].table1 || n == rels[0].table2 || IsEndpoint(rels[1..], n)
  {
    forall n | IsEndpoint(rels[1..], n) ensures IsEndpoint(rels, n) {
      var k :| 0 <= k < |rels[1..]| && (rels[1..][k].table1 == n || rels[1..][k].table2 == n);
      assert rels[k + 1] == rels[1..][k];
    }
    forall n | IsEndpoint(rels, n)
      ensures n == rels[0].table1 || n == rels[0].table2 || IsEndpoint(rels[1..], n)
    {
      var k :| 0 <= k < |rels| && (rels[k].table1 == n || rels[k].table2 == n);
      if k > 0 {
        assert rels[1..][k - 1] == rels[k];
      }
    }
  }

  /** The schema entries as nodes, in dictionary order, each carrying its column names. */
  function SchemaNodes(schemas: seq<TableSchema>): (base: seq<Node>)
    requires UniqueTableNames(schemas)
    ensures |base| == |schemas| && DistinctNames(base)
    ensures forall k :: 0 <= k < |schemas| ==> base[k] == Node(schemas[k].name, ColumnNames(schemas[k].columns))
  {
    seq(|schemas|, k requires 0 <= k < |schemas| => Node(schemas[k].name, ColumnNames(schemas[k].columns)))
  }

  /** The edges of the relationship records, one per record, in record order. */
  function RelationEdges(rels: seq<Relationship>): (edges: seq<Edge>)
    ensures |edges| == |rels|
    ensures forall k :: 0 <= k < |rels| ==> edges[k] == EdgeOf(rels[k])
  {
    seq(|rels|, k requires 0 <= k < |rels| => EdgeOf(rels[k]))
  }

  /** Adding the endpoints makes a node for both ends of every relationship edge. */
  lemma EndpointsPresent(base: seq<Node>, rels: seq<Relationship>)
    requires DistinctNames(base)
    ensures forall e :: e in RelationEdges(rels) ==>
              e.fromTable in NodeNames(AddEndpoints(base, rels)) && e.toTable in NodeNames(AddEndpoints(base, rels))
  {
    AddEndpointsNames(base, rels);
    var edges := RelationEdges(rels);
    forall e | e in edges
      ensures IsEndpoint(rels, e.fromTable) && IsEndpoint(rels, e.toTable)
    {
      var k :| 0 <= k < |edges| && edges[k] == e;
      assert rels[k].table1 == e.fromTable && rels[k].table2 == e.toTable;
    }
  }

  /**
   * `_build_graph`: one node per schema entry (in dictionary order, carrying its
   * column names), then one edge per relationship in record order; endpoints that
   * name no schema entry become bare nodes as they are first met.
   */
  function BuildGraph(schemas: seq<TableSchema>, rels: seq<Relationship>): (g: Graph)
    requires UniqueTableNames(schemas)
    ensures WellFormed(g)
    ensures |g.edges| == |rels|
    ensures forall k :: 0 <= k < |rels| ==> g.edges[k] == EdgeOf(rels[k])
    ensures |schemas| <= |g.nodes|
    ensures forall k :: 0 <= k < |schemas| ==>
              g.nodes[k] == Node(schemas[k].name, ColumnNames(schemas[k].columns))
    ensures forall k :: |schemas| <= k < |g.nodes| ==>
              g.nodes[k].columns == [] && IsEndpoint(rels, g.nodes[k].name)
  {
    var base := SchemaNodes(schemas);
    var nodes := AddEndpoints(base, rels);
    EndpointsPresent(base, rels);
    AddEndpointsFresh(base, rels);
    assert forall k :: 0 <= k < |base| ==> nodes[k] == base[k] by {
      forall k | 0 <= k < |base| ensures nodes[k] == base[k] {
        assert nodes[..|base|][k] == nodes[k];
      }
    }
    Graph(nodes, RelationEdges(rels))
  }

  /** The schema nodes are named after the schema entries. */
  lemma SchemaNodeNames(schemas: seq<TableSchema>, base: seq<Node>)
    requires |base| == |schemas|
    requires forall k :: 0 <= k < |schemas| ==> base[k].name == schemas[k].name
    ensures forall n :: n in NodeNames(base) <==> exists k :: 0 <= k < |schemas| && schemas[k].name == n
  {
    forall n | n in NodeNames(base) ensures exists k :: 0 <= k < |schemas| && schemas[k].name == n {
      var k :| 0 <= k < |base| && NodeNames(base)[k] == n;
      assert schemas[k].name == n;
    }
    forall n | exists k :: 0 <= k < |schemas| && schemas[k].name == n ensures n in NodeNames(base) {
      var k :| 0 <= k < |schemas| && schemas[k].name == n;
      assert NodeNames(base)[k] == n;
    }
  }

  /** The tables of the built graph are the schema entries and the relationship endpoints. */
  lemma BuildGraphTables(schemas: seq<TableSchema>, rels: seq<Relationship>)
    requires UniqueTableNames(schemas)
    ensures forall n :: n in NodeSet(BuildGraph(schemas, rels)) <==>
              (exists k :: 0 <= k < |schemas| && schemas[k].name == n) || IsEndpoint(rels, n)
  {
    var g := BuildGraph(schemas, rels);
    var base := seq(|schemas|, k requires 0 <= k < |schemas| =>
                      Node(schemas[k].name, ColumnNames(schemas[k].columns)));
    assert DistinctNames(base);
    assert g.nodes == AddEndpoints(base, rels);
    AddEndpointsNames(base, rels);
    SchemaNodeNames(schemas, base);
  }

  /**
   * `graph.get_edge_data(s, t)` iterated in key order: the edges stored for the
   * ordered pair `(s, t)`, in insertion order.
   */
  function EdgesFrom(edges: seq<Edge>, s: string, t: string): (r: seq<Edge>)
    ensures |r| <= |edges|
  {
    if |edges| == 0 then []
    else
      var rest := EdgesFrom(edges[1..], s, t);
      if edges[0].fromTable == s && edges[0].toTable == t then [edges[0]] + rest else rest
  }

  /** The edges of a pair are exactly the stored edges with those endpoints. */
  lemma {:induction false} EdgesFromMembership(edges: seq<Edge>, s: string, t: string)
    ensures forall e :: e in EdgesFrom(edges, s, t) <==> e in edges && e.fromTable == s && e.toTable == t
  {
    if |edges| > 0 {
      EdgesFromMembership(edges[1..], s, t);
      assert edges == [edges[0]] + edges[1..];
    }
  }

  /** Selecting the edges of a pair distributes over concatenation. */
  lemma {:induction false} EdgesFromAppend(a: seq<Edge>, b: seq<Edge>, s: string, t: string)
    ensures EdgesFrom(a + b, s, t) == EdgesFrom(a, s, t) + EdgesFrom(b, s, t)
  {
    if |a| > 0 {
      assert (a + b)[0] == a[0];
      assert (a + b)[1..] == a[1..] + b;
      EdgesFromAppend(a[1..], b, s, t);
    } else {
      assert a + b == b;
    }
  }

  /** Selecting the edges of a pair keeps every copy of a matching edge and no other edge. */
  lemma {:induction false} EdgesFromCount(edges: seq<Edge>, s: string, t: string, x: Edge)
    ensures multiset(EdgesFrom(edges, s, t))[x]
            == if x.fromTable == s && x.toTable == t then multiset(edges)[x] else 0
  {
    if |edges| > 0 {
      var e, tail := edges[0], edges[1..];
      var rest := EdgesFrom(tail, s, t);
      EdgesFromCount(tail, s, t, x);
      assert edges == [e] + tail;
      assert multiset(edges)[x] == multiset([e])[x] + multiset(tail)[x];
      if e.fromTable == s && e.toTable == t {
        assert EdgesFrom(edges, s, t) == [e] + rest;
        assert multiset(EdgesFrom(edges, s, t))[x] == multiset([e])[x] + multiset(rest)[x];
      } else {
        assert EdgesFrom(edges, s, t) == rest;
        assert x.fromTable == s && x.toTable == t ==> multiset([e])[x] == 0;
      }
    }
  }
}
