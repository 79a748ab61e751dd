/**
 * Context-aware join resolution (`get_join_relationships` in app.py): for every pair
 * of requested tables, in both directions, the parallel join edges are filtered by
 * the requested context and each surviving edge is rendered as an SQL join condition.
 */
module JoinResolver {
  import opened Wrappers
  import opened Text
  import opened KnowledgeGraph
  import opened PairLoop

  /** One resolved join, as handed to SQL generation. */
  datatype JoinRecord = JoinRecord(
    fromTable: string,
    toTable: string,
    condition: string,
    joinType: string,
    context: string,
    description: string)

  const AndSeparator: string := " AND "

  function Min(a: int, b: int): int {
    if a <= b then a else b
  }

  /** One column equality `"{fromTable}.{src} = {toTable}.{tgt}"`. */
  function Equality(fromTable: string, src: string, toTable: string, tgt: string): string {
    fromTable + "." + src + " = " + toTable + "." + tgt
  }

  /**
   * The equalities of an edge: its source and target columns paired by position, as
   * Python's `zip` pairs them, so the longer list is cut to the length of the shorter.
   * The edge's own direction names the two sides.
   */
  function ConditionParts(e: Edge): (r: seq<string>)
    ensures |r| == Min(|e.sourceColumns|, |e.targetColumns|)
    ensures forall k :: 0 <= k < |r| ==>
              r[k] == Equality(e.fromTable, e.sourceColumns[k], e.toTable, e.targetColumns[k])
  {
    var n := Min(|e.sourceColumns|, |e.targetColumns|);
    seq(n, k requires 0 <= k < n =>
          Equality(e.fromTable, e.sourceColumns[k], e.toTable, e.targetColumns[k]))
  }

  /** The rendered join condition: the equalities joined by `" AND "`. */
  function RenderCondition(e: Edge): string {
    Join(AndSeparator, ConditionParts(e))
  }

  /** `if context:` is false for a missing or empty context: then nothing is filtered. */
  predicate NoFilter(context: Option<string>) {
    context.None? || context.value == ""
  }

  /**
   * Python's `str.lower()`. Its Unicode case mapping is not restated here: every
   * operation that compares context labels takes it as a parameter, and nothing is
   * assumed of it.
   */
  type Fold = string -> string

  /** An edge label matches a context when its lower-cased text contains the lower-cased context. */
  predicate Matches(lower: Fold, context: string, edgeContext: string) {
    Contains(lower(edgeContext), lower(context))
  }

  /** The fallback label, compared exactly (case matters here, unlike in `Matches`). */
  predicate IsDefaultLabel(edgeContext: string) {
    edgeContext == DefaultContext
  }

  /** Some edge of `siblings` that is not labelled `default` matches the context. */
  predicate HasSpecificMatch(lower: Fold, context: string, siblings: seq<Edge>) {
    exists k :: 0 <= k < |siblings| && !IsDefaultLabel(siblings[k].context) && Matches(lower, context, siblings[k].context)
  }

  /**
   * The filter of `get_join_relationships` for edge `e` among the `siblings` stored
   * for the same ordered table pair: with no context every edge is kept; otherwise an
   * edge is kept if its label matches, or if it is labelled `default` and no other
   * edge of the same ordered pair matches.
   */
  predicate Keep(lower: Fold, context: Option<string>, e: Edge, siblings: seq<Edge>) {
    || NoFilter(context)
    || Matches(lower, context.value, e.context)
    || (IsDefaultLabel(e.context) && !HasSpecificMatch(lower, context.value, siblings))
  }

  /** The edges of `es` that the filter keeps, in their order. */
  function Select(es: seq<Edge>, siblings: seq<Edge>, lower: Fold, context: Option<string>): (r: seq<Edge>)
    ensures |r| <= |es|
    ensures NoFilter(context) ==> r == es
  {
    if |es| == 0 then []
    else
      var rest := Select(es[1..], siblings, lower, context);
      assert es == [es[0]] + es[1..];
      (if Keep(lower, context, es[0], siblings) then [es[0]] else []) + rest
  }

  /** An edge survives the filter iff it is one of the candidates and the filter keeps it. */
  lemma {:induction false} SelectMembership(es: seq<Edge>, siblings: seq<Edge>, lower: Fold, context: Option<string>)
    ensures forall e :: e in Select(es, siblings, lower, context) <==> e in es && Keep(lower, context, e, siblings)
  {
    if |es| > 0 {
      SelectMembership(es[1..], siblings, lower, context);
      assert es == [es[0]] + es[1..];
    }
  }

  /** The join record of one edge: its own endpoints, join type, label and description. */
  function ToRecord(e: Edge): JoinRecord {
    JoinRecord(e.fromTable, e.toTable, RenderCondition(e), e.joinType, e.context, e.description)
  }

  /** The edges stored in direction `(s, t)` that survive the context filter. */
  function DirectionEdges(g: Graph, s: string, t: string, lower: Fold, context: Option<string>): seq<Edge> {
    var es := EdgesFrom(g.edges, s, t);
    Select(es, es, lower, context)
  }

  function DirectionRecords(g: Graph, s: string, t: string, lower: Fold, context: Option<string>): (r: seq<JoinRecord>)
    ensures |r| == |DirectionEdges(g, s, t, lower, context)|
  {
    var es := DirectionEdges(g, s, t, lower, context);
    seq(|es|, k requires 0 <= k < |es| => ToRecord(es[k]))
  }

  /** Records for the pair of positions `i < j`: direction `tables[i] -> tables[j]` first, then back. */
  function PairRecords(g: Graph, tables: seq<string>, i: nat, j: nat, lower: Fold, context: Option<string>): seq<JoinRecord> {
    if i < j < |tables| then
      DirectionRecords(g, tables[i], tables[j], lower, context) + DirectionRecords(g, tables[j], tables[i], lower, context)
    else []
  }

  /** What the pair loop of `get_join_relationships` collects for each pair of positions. */
  function PairFn(g: Graph, tables: seq<string>, lower: Fold, context: Option<string>): (nat, nat) -> seq<JoinRecord> {
    (i: nat, j: nat) => PairRecords(g, tables, i, j, lower, context)
  }

  /** `get_join_relationships(tables, context)`. */
  function JoinRelationships(g: Graph, tables: seq<string>, lower: Fold, context: Option<string>): seq<JoinRecord> {
    Rows(PairFn(g, tables, lower, context), |tables|, 0)
  }

  /** Record `r` is emitted for the ordered direction `(s, t)`. */
  predicate EmittedFor(g: Graph, s: string, t: string, lower: Fold, context: Option<string>, r: JoinRecord) {
    exists e :: e in g.edges && e.fromTable == s && e.toTable == t
                && Keep(lower, context, e, EdgesFrom(g.edges, s, t)) && r == ToRecord(e)
  }

  lemma DirectionRecordsSound(g: Graph, s: string, t: string, lower: Fold, context: Option<string>, r: JoinRecord)
    requires r in DirectionRecords(g, s, t, lower, context)
    ensures EmittedFor(g, s, t, lower, context, r)
  {
    var cands := EdgesFrom(g.edges, s, t);
    var es := DirectionEdges(g, s, t, lower, context);
    var rs := DirectionRecords(g, s, t, lower, context);
    var k :| 0 <= k < |rs| && rs[k] == r;
    var e := es[k];
    assert e in es && r == ToRecord(e);
    SelectMembership(cands, cands, lower, context);
    assert e in cands && Keep(lower, context, e, cands);
    EdgesFromMembership(g.edges, s, t);
  }

  lemma DirectionRecordsComplete(g: Graph, s: string, t: string, lower: Fold, context: Option<string>, r: JoinRecord)
    requires EmittedFor(g, s, t, lower, context, r)
    ensures r in DirectionRecords(g, s, t, lower, context)
  {
    var cands := EdgesFrom(g.edges, s, t);
    var es := DirectionEdges(g, s, t, lower, context);
    var e :| e in g.edges && e.fromTable == s && e.toTable == t
             && Keep(lower, context, e, cands) && r == ToRecord(e);
    EdgesFromMembership(g.edges, s, t);
    assert e in cands;
    SelectMembership(cands, cands, lower, context);
    assert e in es;
    var k :| 0 <= k < |es| && es[k] == e;
    assert DirectionRecords(g, s, t, lower, context)[k] == r;
  }

  /** The records of a direction are those of its kept edges. */
  lemma DirectionRecordsMembership(g: Graph, s: string, t: string, lower: Fold, context: Option<string>, r: JoinRecord)
    ensures r in DirectionRecords(g, s, t, lower, context) <==> EmittedFor(g, s, t, lower, context, r)
  {
    if r in DirectionRecords(g, s, t, lower, context) {
      DirectionRecordsSound(g, s, t, lower, context, r);
    }
    if EmittedFor(g, s, t, lower, context, r) {
      DirectionRecordsComplete(g, s, t, lower, context, r);
    }
  }

  /** Record `r` is emitted for some pair `i < j` of `tables`, in one of its two directions. */
  predicate EmittedForPair(g: Graph, tables: seq<string>, lower: Fold, context: Option<string>, r: JoinRecord) {
    exists i, j :: 0 <= i < j < |tables|
                   && (EmittedFor(g, tables[i], tables[j], lower, context, r) || EmittedFor(g, tables[j], tables[i], lower, context, r))
  }

  /** The records of the pair `(i, j)` are those of its two directions. */
  lemma PairMembership(g: Graph, tables: seq<string>, lower: Fold, context: Option<string>, i: nat, j: nat, r: JoinRecord)
    requires i < j < |tables|
    ensures r in PairFn(g, tables, lower, context)(i, j)
            <==> EmittedFor(g, tables[i], tables[j], lower, context, r) || EmittedFor(g, tables[j], tables[i], lower, context, r)
  {
    assert PairFn(g, tables, lower, context)(i, j)
           == DirectionRecords(g, tables[i], tables[j], lower, context) + DirectionRecords(g, tables[j], tables[i], lower, context);
    DirectionRecordsMembership(g, tables[i], tables[j], lower, context, r);
    DirectionRecordsMembership(g, tables[j], tables[i], lower, context, r);
  }

  /**
   * A record is produced exactly when some edge stored between two requested tables
   * `tables[i] -> tables[j]` or `tables[j] -> tables[i]` (with `i < j`) passes the
   * filter among the edges of its own ordered direction, and the record is that edge's.
   */
  lemma JoinRelationshipsMembership(g: Graph, tables: seq<string>, lower: Fold, context: Option<string>, r: JoinRecord)
    ensures r in JoinRelationships(g, tables, lower, context) <==> EmittedForPair(g, tables, lower, context, r)
  {
    var f := PairFn(g, tables, lower, context);
    RowsMembership(f, |tables|, 0, r);
    if r in JoinRelationships(g, tables, lower, context) {
      var i, j :| 0 <= i < j < |tables| && r in f(i, j);
      PairMembership(g, tables, lower, context, i, j, r);
    }
    if EmittedForPair(g, tables, lower, context, r) {
      var i, j :| 0 <= i < j < |tables|
                  && (EmittedFor(g, tables[i], tables[j], lower, context, r) || EmittedFor(g, tables[j], tables[i], lower, context, r));
      PairMembership(g, tables, lower, context, i, j, r);
    }
  }

  /** The record `r` is that of an edge between two different tables of `tables` that the filter keeps. */
  predicate KeptBetween(g: Graph, tables: seq<string>, lower: Fold, context: Option<string>, r: JoinRecord) {
    exists e :: e in g.edges && e.fromTable in tables && e.toTable in tables && e.fromTable != e.toTable
                && Keep(lower, context, e, EdgesFrom(g.edges, e.fromTable, e.toTable)) && r == ToRecord(e)
  }

  lemma DistinctPairKept(g: Graph, tables: seq<string>, lower: Fold, context: Option<string>, r: JoinRecord, s: string, t: string)
    requires s in tables && t in tables && s != t
    requires EmittedFor(g, s, t, lower, context, r)
    ensures KeptBetween(g, tables, lower, context, r)
  {
    var e :| e in g.edges && e.fromTable == s && e.toTable == t
             && Keep(lower, context, e, EdgesFrom(g.edges, s, t)) && r == ToRecord(e);
  }

  lemma KeptIsEmitted(g: Graph, tables: seq<string>, lower: Fold, context: Option<string>, r: JoinRecord)
    requires KeptBetween(g, tables, lower, context, r)
    ensures EmittedForPair(g, tables, lower, context, r)
  {
    var e :| e in g.edges && e.fromTable in tables && e.toTable in tables && e.fromTable != e.toTable
             && Keep(lower, context, e, EdgesFrom(g.edges, e.fromTable, e.toTable)) && r == ToRecord(e);
    var a :| 0 <= a < |tables| && tables[a] == e.fromTable;
    var b :| 0 <= b < |tables| && tables[b] == e.toTable;
    assert EmittedFor(g, tables[a], tables[b], lower, context, r);
    if a < b {
      assert 0 <= a < b < |tables| && EmittedFor(g, tables[a], tables[b], lower, context, r);
    } else {
      assert 0 <= b < a < |tables| && EmittedFor(g, tables[a], tables[b], lower, context, r);
    }
  }

  /**
   * For a list of distinct tables the records do not depend on the list's order:
   * a record is emitted iff it is the record of an edge between two different
   * requested tables that the filter keeps among the edges of its direction.
   */
  lemma JoinRelationshipsOfDistinct(g: Graph, tables: seq<string>, lower: Fold, context: Option<string>, r: JoinRecord)
    requires Distinct(tables)
    ensures r in JoinRelationships(g, tables, lower, context) <==> KeptBetween(g, tables, lower, context, r)
  {
    JoinRelationshipsMembership(g, tables, lower, context, r);
    if EmittedForPair(g, tables, lower, context, r) {
      var i, j :| 0 <= i < j < |tables|
                  && (EmittedFor(g, tables[i], tables[j], lower, context, r) || EmittedFor(g, tables[j], tables[i], lower, context, r));
      assert tables[i] != tables[j];
      if EmittedFor(g, tables[i], tables[j], lower, context, r) {
        DistinctPairKept(g, tables, lower, context, r, tables[i], tables[j]);
      } else {
        DistinctPairKept(g, tables, lower, context, r, tables[j], tables[i]);
      }
    }
    if KeptBetween(g, tables, lower, context, r) {
      KeptIsEmitted(g, tables, lower, context, r);
    }
  }

  /** Two orderings of the same distinct tables resolve to the same set of records. */
  lemma JoinRelationshipsOrderIndependent(g: Graph, t1: seq<string>, t2: seq<string>, lower: Fold, context: Option<string>)
    requires Distinct(t1) && Distinct(t2)
    requires forall x :: x in t1 <==> x in t2
    ensures forall r :: r in JoinRelationships(g, t1, lower, context) <==> r in JoinRelationships(g, t2, lower, context)
  {
    forall r ensures r in JoinRelationships(g, t1, lower, context) <==> r in JoinRelationships(g, t2, lower, context) {
      JoinRelationshipsOfDistinct(g, t1, lower, context, r);
      JoinRelationshipsOfDistinct(g, t2, lower, context, r);
    }
  }

  /** The edges stored for the pair of positions `i < j`, in both directions, forward first. */
  function PairEdges(g: Graph, tables: seq<string>, i: nat, j: nat): seq<Edge> {
    if i < j < |tables| then
      EdgesFrom(g.edges, tables[i], tables[j]) + EdgesFrom(g.edges, tables[j], tables[i])
    else []
  }

  /** Every edge the pair loop visits, in visiting order. */
  function VisitedEdges(g: Graph, tables: seq<string>): seq<Edge> {
    Rows((i: nat, j: nat) => PairEdges(g, tables, i, j), |tables|, 0)
  }

  lemma DirectionUnfiltered(g: Graph, s: string, t: string, lower: Fold, context: Option<string>)
    requires NoFilter(context)
    ensures DirectionRecords(g, s, t, lower, context) == MapSeq(ToRecord, EdgesFrom(g.edges, s, t))
  {
  }

  /**
   * Without a context nothing is filtered: the records are those of the edges the
   * pair loop visits, one per edge, in visiting order.
   */
  lemma UnfilteredRecords(g: Graph, tables: seq<string>, lower: Fold, context: Option<string>)
    requires NoFilter(context)
    ensures JoinRelationships(g, tables, lower, context) == MapSeq(ToRecord, VisitedEdges(g, tables))
    ensures |JoinRelationships(g, tables, lower, context)| == |VisitedEdges(g, tables)|
  {
    var f := PairFn(g, tables, lower, context);
    var h := (i: nat, j: nat) => PairEdges(g, tables, i, j);
    forall i, j | 0 <= i < j < |tables| ensures f(i, j) == MapSeq(ToRecord, h(i, j)) {
      DirectionUnfiltered(g, tables[i], tables[j], lower, context);
      DirectionUnfiltered(g, tables[j], tables[i], lower, context);
      MapConcat(ToRecord, EdgesFrom(g.edges, tables[i], tables[j]), EdgesFrom(g.edges, tables[j], tables[i]));
    }
    RowsMap(f, h, ToRecord, |tables|, 0);
    assert VisitedEdges(g, tables) == Rows(h, |tables|, 0);
  }

  /**
   * The filter of `get_join_relationships` as a test on one edge: the edge is judged
   * among the edges stored in its own ordered direction.
   */
  function KeepFn(g: Graph, lower: Fold, context: Option<string>): Edge -> bool {
    (e: Edge) => Keep(lower, context, e, EdgesFrom(g.edges, e.fromTable, e.toTable))
  }

  lemma {:induction false} SelectIsFilter(g: Graph, s: string, t: string, es: seq<Edge>, lower: Fold, context: Option<string>)
    requires forall k :: 0 <= k < |es| ==> es[k].fromTable == s && es[k].toTable == t
    ensures Select(es, EdgesFrom(g.edges, s, t), lower, context) == Filter(KeepFn(g, lower, context), es)
  {
    if |es| > 0 {
      SelectIsFilter(g, s, t, es[1..], lower, context);
    }
  }

  lemma DirectionFiltered(g: Graph, s: string, t: string, lower: Fold, context: Option<string>)
    ensures DirectionRecords(g, s, t, lower, context)
            == MapSeq(ToRecord, Filter(KeepFn(g, lower, context), EdgesFrom(g.edges, s, t)))
  {
    var cands := EdgesFrom(g.edges, s, t);
    EdgesFromMembership(g.edges, s, t);
    assert forall k :: 0 <= k < |cands| ==> cands[k] in cands;
    SelectIsFilter(g, s, t, cands, lower, context);
  }

  /**
   * For any context, the records are those of the edges the pair loop visits that
   * pass the filter, one per edge, in visiting order: direction `tables[i] -> tables[j]`
   * before `tables[j] -> tables[i]`, each in insertion order.
   */
  lemma FilteredOrder(g: Graph, tables: seq<string>, lower: Fold, context: Option<string>)
    ensures JoinRelationships(g, tables, lower, context)
            == MapSeq(ToRecord, Filter(KeepFn(g, lower, context), VisitedEdges(g, tables)))
  {
    var p := KeepFn(g, lower, context);
    var f := PairFn(g, tables, lower, context);
    var h := (i: nat, j: nat) => PairEdges(g, tables, i, j);
    var kept := (i: nat, j: nat) => Filter(p, PairEdges(g, tables, i, j));
    forall i, j | 0 <= i < j < |tables| ensures f(i, j) == MapSeq(ToRecord, kept(i, j)) {
      var fwd, back := EdgesFrom(g.edges, tables[i], tables[j]), EdgesFrom(g.edges, tables[j], tables[i]);
      DirectionFiltered(g, tables[i], tables[j], lower, context);
      DirectionFiltered(g, tables[j], tables[i], lower, context);
      FilterConcat(p, fwd, back);
      MapConcat(ToRecord, Filter(p, fwd), Filter(p, back));
    }
    RowsMap(f, kept, ToRecord, |tables|, 0);
    RowsFilter(kept, h, p, |tables|, 0);
    assert VisitedEdges(g, tables) == Rows(h, |tables|, 0);
  }

  /** With a context, every emitted record's label matches it or is exactly `default`. */
  lemma FilteredLabels(g: Graph, tables: seq<string>, lower: Fold, context: Option<string>, r: JoinRecord)
    requires !NoFilter(context)
    requires r in JoinRelationships(g, tables, lower, context)
    ensures Matches(lower, context.value, r.context) || IsDefaultLabel(r.context)
  {
    JoinRelationshipsMembership(g, tables, lower, context, r);
  }

  /** An edge between two requested tables whose label matches the context is always emitted. */
  lemma MatchingEdgeEmitted(g: Graph, tables: seq<string>, lower: Fold, context: Option<string>, e: Edge)
    requires e in g.edges && e.fromTable in tables && e.toTable in tables && e.fromTable != e.toTable
    requires NoFilter(context) || Matches(lower, context.value, e.context)
    ensures ToRecord(e) in JoinRelationships(g, tables, lower, context)
  {
    assert Keep(lower, context, e, EdgesFrom(g.edges, e.fromTable, e.toTable));
    MatchingOrFallbackEmitted(g, tables, lower, context, e);
  }

  /**
   * The fallback: with a context given, a `default` edge between two different
   * requested tables that does not itself match is emitted iff no edge stored in the
   * same ordered direction, other than a `default` one, matches the context.
   * Edges stored in the opposite direction play no part.
   */
  lemma DefaultFallback(g: Graph, tables: seq<string>, lower: Fold, context: Option<string>, e: Edge)
    requires !NoFilter(context)
    requires e in g.edges && e.fromTable in tables && e.toTable in tables && e.fromTable != e.toTable
    requires IsDefaultLabel(e.context) && !Matches(lower, context.value, e.context)
    ensures ToRecord(e) in JoinRelationships(g, tables, lower, context) <==>
              !HasSpecificMatch(lower, context.value, EdgesFrom(g.edges, e.fromTable, e.toTable))
  {
    var r := ToRecord(e);
    var es := EdgesFrom(g.edges, e.fromTable, e.toTable);
    JoinRelationshipsMembership(g, tables, lower, context, r);
    if r in JoinRelationships(g, tables, lower, context) {
      var i, j :| 0 <= i < j < |tables|
                  && (EmittedFor(g, tables[i], tables[j], lower, context, r) || EmittedFor(g, tables[j], tables[i], lower, context, r));
      var s, t := if EmittedFor(g, tables[i], tables[j], lower, context, r) then tables[i] else tables[j],
                  if EmittedFor(g, tables[i], tables[j], lower, context, r) then tables[j] else tables[i];
      var e' :| e' in g.edges && e'.fromTable == s && e'.toTable == t
                && Keep(lower, context, e', EdgesFrom(g.edges, s, t)) && r == ToRecord(e');
      assert e'.fromTable == e.fromTable && e'.toTable == e.toTable && e'.context == e.context;
    } else if !HasSpecificMatch(lower, context.value, es) {
      assert Keep(lower, context, e, es);
      MatchingOrFallbackEmitted(g, tables, lower, context, e);
    }
  }

  /** Any kept edge between two different requested tables is emitted. */
  lemma MatchingOrFallbackEmitted(g: Graph, tables: seq<string>, lower: Fold, context: Option<string>, e: Edge)
    requires e in g.edges && e.fromTable in tables && e.toTable in tables && e.fromTable != e.toTable
    requires Keep(lower, context, e, EdgesFrom(g.edges, e.fromTable, e.toTable))
    ensures ToRecord(e) in JoinRelationships(g, tables, lower, context)
  {
    var a :| 0 <= a < |tables| && tables[a] == e.fromTable;
    var b :| 0 <= b < |tables| && tables[b] == e.toTable;
    assert EmittedFor(g, tables[a], tables[b], lower, context, ToRecord(e));
    if a < b {
      assert EmittedForPair(g, tables, lower, context, ToRecord(e));
    } else {
      assert EmittedForPair(g, tables, lower, context, ToRecord(e));
    }
    JoinRelationshipsMembership(g, tables, lower, context, ToRecord(e));
  }

  /** `Join` with two or more parts places the separator right after the first part. */
  lemma JoinHasSeparator(sep: string, parts: seq<string>)
    requires |parts| >= 2
    ensures OccursAt(Join(sep, parts), sep, |parts[0]|)
  {
    var s := Join(sep, parts);
    assert s == parts[0] + sep + Join(sep, parts[1..]);
    assert s[|parts[0]|..|parts[0]| + |sep|] == sep;
  }

  /**
   * The composite-join flag of `generate_sql` (`" AND " in condition`) is raised
   * exactly when the edge pairs two or more columns, or when its single equality
   * itself contains `" AND "` (a table or column name containing it).
   */
  lemma CompositeFlag(e: Edge)
    ensures Contains(RenderCondition(e), AndSeparator) <==>
              |ConditionParts(e)| >= 2 || (|ConditionParts(e)| == 1 && Contains(ConditionParts(e)[0], AndSeparator))
  {
    var parts := ConditionParts(e);
    if |parts| >= 2 {
      JoinHasSeparator(AndSeparator, parts);
    } else if |parts| == 0 {
      assert RenderCondition(e) == "";
      assert forall i :: !OccursAt("", AndSeparator, i);
    }
  }
}
