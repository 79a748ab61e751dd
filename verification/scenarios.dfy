/**
 * A join catalogue shaped like the one update_joins.py writes: a Counterparty table
 * joins Trade on one default composite key, and Concentration on three composite
 * keys, one per analysis context (country, sector, rating). That script stores the
 * labels under the column header `__EMPTY`, while the loader reads `Context`
 * (app.py:367), so loaded as written all four edges would get the label `default`;
 * the lemmas here describe a catalogue whose `Context` column carries the labels.
 * They fix what `get_join_relationships` returns for that shape, whatever the
 * labels' text, given which labels the asked context matches.
 */
module Scenarios {
  import opened Wrappers
  import opened Text
  import opened KnowledgeGraph
  import opened JoinResolver
  import opened PairLoop

  /** A two-column composite key renders as its two equalities joined by `" AND "`. */
  lemma TwoColumnCondition(e: Edge)
    requires |e.sourceColumns| == 2 && |e.targetColumns| == 2
    ensures RenderCondition(e)
            == Equality(e.fromTable, e.sourceColumns[0], e.toTable, e.targetColumns[0]) + AndSeparator
               + Equality(e.fromTable, e.sourceColumns[1], e.toTable, e.targetColumns[1])
  {
    var parts := ConditionParts(e);
    assert |parts| == 2;
    assert parts[1..] == [parts[1]];
    assert Join(AndSeparator, parts[1..]) == parts[1];
  }

  /** For two tables the pair loop visits one pair: both its directions, forward first. */
  lemma TwoTables(g: Graph, a: string, b: string, lower: Fold, context: Option<string>)
    ensures JoinRelationships(g, [a, b], lower, context)
            == DirectionRecords(g, a, b, lower, context) + DirectionRecords(g, b, a, lower, context)
  {
    TwoPositions(PairFn(g, [a, b], lower, context));
  }

  /** The records of a direction whose kept edges are known. */
  lemma RecordsOfKept(g: Graph, s: string, t: string, lower: Fold, context: Option<string>, kept: seq<Edge>)
    requires DirectionEdges(g, s, t, lower, context) == kept
    ensures DirectionRecords(g, s, t, lower, context) == seq(|kept|, k requires 0 <= k < |kept| => ToRecord(kept[k]))
  {
  }

  /** One filtering step of `Select`. */
  lemma SelectStep(es: seq<Edge>, siblings: seq<Edge>, lower: Fold, context: Option<string>)
    requires |es| > 0
    ensures Select(es, siblings, lower, context)
            == (if Keep(lower, context, es[0], siblings) then [es[0]] else []) + Select(es[1..], siblings, lower, context)
  {
  }

  /** The catalogue: a default join to one table, then three labelled joins to another. */
  predicate CatalogueShape(g: Graph, hub: string, trade: string, conc: string) {
    && hub != trade && hub != conc && trade != conc
    && |g.edges| == 4
    && g.edges[0].fromTable == hub && g.edges[0].toTable == trade && IsDefaultLabel(g.edges[0].context)
    && (forall k :: 1 <= k < 4 ==> g.edges[k].fromTable == hub && g.edges[k].toTable == conc
                                   && !IsDefaultLabel(g.edges[k].context))
  }

  lemma CatalogueSelections(g: Graph, hub: string, trade: string, conc: string)
    requires CatalogueShape(g, hub, trade, conc)
    ensures EdgesFrom(g.edges, hub, trade) == g.edges[..1]
    ensures EdgesFrom(g.edges, hub, conc) == g.edges[1..]
    ensures EdgesFrom(g.edges, trade, hub) == [] && EdgesFrom(g.edges, conc, hub) == []
  {
    var es := g.edges;
    assert es[3..][1..] == [];
    assert es[2..][1..] == es[3..];
    assert es[1..][1..] == es[2..];
    assert EdgesFrom(es[3..], hub, trade) == [];
    assert EdgesFrom(es[2..], hub, trade) == [];
    assert EdgesFrom(es[1..], hub, trade) == [];
    assert es[..1] == [es[0]];
    assert EdgesFrom(es[3..], hub, conc) == [es[3]] == es[3..];
    assert EdgesFrom(es[2..], hub, conc) == [es[2]] + es[3..] == es[2..];
    assert EdgesFrom(es[1..], hub, conc) == [es[1]] + es[2..] == es[1..];
    assert EdgesFrom(es[3..], trade, hub) == [];
    assert EdgesFrom(es[2..], trade, hub) == [];
    assert EdgesFrom(es[1..], trade, hub) == [];
    assert EdgesFrom(es[3..], conc, hub) == [];
    assert EdgesFrom(es[2..], conc, hub) == [];
    assert EdgesFrom(es[1..], conc, hub) == [];
  }

  /** The three labelled joins, filtered against one another. */
  lemma LabelledSelect(g: Graph, hub: string, trade: string, conc: string, lower: Fold, context: Option<string>)
    requires CatalogueShape(g, hub, trade, conc)
    ensures DirectionEdges(g, hub, conc, lower, context)
            == (if Keep(lower, context, g.edges[1], g.edges[1..]) then [g.edges[1]] else [])
               + (if Keep(lower, context, g.edges[2], g.edges[1..]) then [g.edges[2]] else [])
               + (if Keep(lower, context, g.edges[3], g.edges[1..]) then [g.edges[3]] else [])
  {
    CatalogueSelections(g, hub, trade, conc);
    var es := g.edges[1..];
    var e1 := es[1..];
    var e2 := e1[1..];
    assert es[0] == g.edges[1] && e1[0] == g.edges[2] && e2[0] == g.edges[3] && e2[1..] == [];
    SelectStep(es, es, lower, context);
    SelectStep(e1, es, lower, context);
    SelectStep(e2, es, lower, context);
  }

  /**
   * Asking by a context that only the first labelled join matches (say "Country"
   * against "For country level data") keeps that join alone, in whichever order the
   * two tables are listed.
   */
  lemma ContextPicksOneJoin(g: Graph, hub: string, trade: string, conc: string, lower: Fold, ctx: string)
    requires CatalogueShape(g, hub, trade, conc)
    requires ctx != ""
    requires Matches(lower, ctx, g.edges[1].context)
    requires !Matches(lower, ctx, g.edges[2].context) && !Matches(lower, ctx, g.edges[3].context)
    ensures JoinRelationships(g, [hub, conc], lower, Some(ctx)) == [ToRecord(g.edges[1])]
    ensures JoinRelationships(g, [conc, hub], lower, Some(ctx)) == [ToRecord(g.edges[1])]
  {
    CatalogueSelections(g, hub, trade, conc);
    LabelledSelect(g, hub, trade, conc, lower, Some(ctx));
    assert DirectionEdges(g, hub, conc, lower, Some(ctx)) == [g.edges[1]];
    RecordsOfKept(g, hub, conc, lower, Some(ctx), [g.edges[1]]);
    RecordsOfKept(g, conc, hub, lower, Some(ctx), []);
    TwoTables(g, hub, conc, lower, Some(ctx));
    TwoTables(g, conc, hub, lower, Some(ctx));
  }

  /** A context none of the labelled joins matches keeps none of them: there is no default to fall back on. */
  lemma UnmatchedContextKeepsNothing(g: Graph, hub: string, trade: string, conc: string, lower: Fold, ctx: string)
    requires CatalogueShape(g, hub, trade, conc)
    requires ctx != ""
    requires forall k :: 1 <= k < 4 ==> !Matches(lower, ctx, g.edges[k].context)
    ensures JoinRelationships(g, [hub, conc], lower, Some(ctx)) == []
  {
    CatalogueSelections(g, hub, trade, conc);
    LabelledSelect(g, hub, trade, conc, lower, Some(ctx));
    assert DirectionEdges(g, hub, conc, lower, Some(ctx)) == [];
    RecordsOfKept(g, hub, conc, lower, Some(ctx), []);
    RecordsOfKept(g, conc, hub, lower, Some(ctx), []);
    TwoTables(g, hub, conc, lower, Some(ctx));
  }

  /** Without a context every labelled join is returned, in the order it was added. */
  lemma NoContextKeepsAll(g: Graph, hub: string, trade: string, conc: string, lower: Fold)
    requires CatalogueShape(g, hub, trade, conc)
    ensures JoinRelationships(g, [hub, conc], lower, None)
            == [ToRecord(g.edges[1]), ToRecord(g.edges[2]), ToRecord(g.edges[3])]
  {
    CatalogueSelections(g, hub, trade, conc);
    LabelledSelect(g, hub, trade, conc, lower, None);
    var kept := [g.edges[1], g.edges[2], g.edges[3]];
    assert DirectionEdges(g, hub, conc, lower, None) == kept;
    RecordsOfKept(g, hub, conc, lower, None, kept);
    RecordsOfKept(g, conc, hub, lower, None, []);
    TwoTables(g, hub, conc, lower, None);
  }

  /** The Trade join, labelled `default`, is kept under any context. */
  lemma DefaultJoinUnderAnyContext(g: Graph, hub: string, trade: string, conc: string, lower: Fold, context: Option<string>)
    requires CatalogueShape(g, hub, trade, conc)
    ensures JoinRelationships(g, [hub, trade], lower, context) == [ToRecord(g.edges[0])]
  {
    CatalogueSelections(g, hub, trade, conc);
    var es := g.edges[..1];
    assert !NoFilter(context) ==> !HasSpecificMatch(lower, context.value, es);
    SelectStep(es, es, lower, context);
    assert es[1..] == [];
    assert DirectionEdges(g, hub, trade, lower, context) == es;
    RecordsOfKept(g, hub, trade, lower, context, es);
    RecordsOfKept(g, trade, hub, lower, context, []);
    TwoTables(g, hub, trade, lower, context);
  }

  /**
   * The fallback is decided per direction: a `default` join stored in the opposite
   * direction of a matching join is kept as well.
   */
  lemma FallbackIsPerDirection(g: Graph, s: string, t: string, lower: Fold, ctx: string)
    requires s != t && |g.edges| == 2 && ctx != ""
    requires g.edges[0].fromTable == s && g.edges[0].toTable == t && Matches(lower, ctx, g.edges[0].context)
    requires g.edges[1].fromTable == t && g.edges[1].toTable == s && IsDefaultLabel(g.edges[1].context)
    ensures JoinRelationships(g, [s, t], lower, Some(ctx)) == [ToRecord(g.edges[0]), ToRecord(g.edges[1])]
  {
    var es := g.edges;
    assert es[1..][1..] == [];
    assert EdgesFrom(es[1..], s, t) == [];
    assert EdgesFrom(es, s, t) == es[..1];
    assert EdgesFrom(es[1..], t, s) == es[1..];
    assert EdgesFrom(es, t, s) == es[1..];
    assert !HasSpecificMatch(lower, ctx, es[1..]);
    SelectStep(es[..1], es[..1], lower, Some(ctx));
    SelectStep(es[1..], es[1..], lower, Some(ctx));
    assert es[..1][1..] == [];
    RecordsOfKept(g, s, t, lower, Some(ctx), es[..1]);
    RecordsOfKept(g, t, s, lower, Some(ctx), es[1..]);
    TwoTables(g, s, t, lower, Some(ctx));
  }
}
