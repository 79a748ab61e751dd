# Text-to-SQL knowledge graph, in Dafny

This project models the core of a text-to-SQL assistant, app.py. `TableKnowledgeGraph`
keeps database tables as nodes and join relationships as edges. It parses composite join
keys (`"colA + colB"`) and resolves the joins among a set of tables under an optional
analysis context (`Country`, `Sector`, `Rating`, …). It adds the connecting tables that
shortest paths pass through, hands out per-table schemas, and exports its content.
`TextToSQLPipeline` wraps it in three steps:

- ask a language model which tables a question needs;
- resolve the joins and schemas for those tables;
- ask the model for SQL over them.

The models' text answers are cleaned of markdown fences and stray prose.

The model is functional:

- The graph is a sequence of immutable `Edge` values, in insertion order, so parallel edges
  between one pair of tables stay apart as the networkx `MultiDiGraph` keeps them.
- Each method of the source is a function or method, specified by its own contract or
  by lemmas about it. For example, `JoinResolver.JoinRelationships` is pinned by
  `FilteredOrder` and `DefaultFallback`, and `Paths.TablesNeeded` by `TablesNeededFails`,
  `TablesNeededCoversPaths` and `TablesNeededOnlyPaths`.
- These lemmas relate each operation to an independent description: membership, order,
  round trip, or permutation.

Modules, one per file:

| file | module | models |
|---|---|---|
| wrappers.dfy | `Wrappers` | `Option`, `Result` |
| text.dfy | `Text` | Python's `strip`, `find`, `rfind`, `split`, `join`, `in` on strings |
| graph.dfy | `KnowledgeGraph` | records, `_build_graph`, composite key parsing, `get_edge_data` |
| pairloop.dfy | `PairLoop` | the `for i … for j in range(i + 1, n)` loop, list comprehensions |
| joins.dfy | `JoinResolver` | `get_join_relationships` |
| paths.dfy | `Paths` | `nx.shortest_path` on the undirected view, `get_all_tables_needed` |
| columns.dfy | `SchemaLookup` | `get_columns_for_tables` |
| export.dfy | `GraphExport` | `export_graph_data` |
| cleanup.dfy | `ResponseCleanup` | the fence and brace cleanup of model answers |
| pipeline.dfy | `Pipeline` | `identify_tables`, `get_join_info`, `generate_sql`, `process` |
| scenarios.dfy | `Scenarios` | the four-row join catalogue of update_joins.py, resolved |

Some behaviours of the code are easy to miss on a quick reading. The model follows the
code in each of them:

- **Unequal key lengths.** A composite key whose two sides list different numbers of
  columns is not rejected. `zip` pairs the columns by position and drops the extra ones
  (app.py:133-136, `JoinResolver.ConditionParts`). No error for mismatched key lengths
  exists.
- **Fallback per direction.** The `default` fallback is decided per *ordered* direction.
  A `default` edge is dropped only when another edge stored from the same start table to
  the same end table matches the context (app.py:95, 114-118). The comments at
  app.py:104, 113 and 121-122 speak of "this table pair". A matching edge stored the
  other way round plays no part (`JoinResolver.DefaultFallback`,
  `Scenarios.FallbackIsPerDirection`).
- **Unknown tables.** Only `NetworkXNoPath` is caught (app.py:162), so an unknown table
  among two or more requested tables ends the run with networkx's `NodeNotFound`. A single
  unknown table passes through, since the pair loop then visits no pair
  (`Paths.TablesNeededFails`).
- **Catalogue labels.** update_joins.py writes the context labels under the column header
  `__EMPTY` (update_joins.py:27), while the loader reads `Context` (app.py:367). A catalogue
  written by that script therefore loads with every edge labelled `default`. The
  `Scenarios` lemmas describe a catalogue whose `Context` column carries the labels.

Python's `str.lower()` is the parameter `lower: JoinResolver.Fold` of every
context-dependent member. The model assumes nothing about it. The comparison of
app.py:106-118 is then stated exactly for whatever case mapping the interpreter applies.

## Model

| member | source | states |
|---|---|---|
| Text.Strip | app.py:69-70 | the result has no outer whitespace (Python's `isspace` set) and is the slice of the input after its leading whitespace run, with only whitespace after it |
| Text.StripPadded | app.py:69-70 | surrounding a trimmed text with any whitespace and stripping returns that text |
| Text.StripIdempotent | app.py:581-588 | stripping twice is stripping once |
| Text.Find | app.py:591 | `find` returns -1 exactly when the character is absent, else an index holding it with none before |
| Text.RFind | app.py:592 | `rfind` returns -1 exactly when the character is absent, else an index holding it with none after |
| Text.SplitCount | app.py:69-70 | `split('+')` yields one piece more than there are `'+'` characters |
| Text.JoinSplit | app.py:69-70 | joining the pieces of a split with the separator restores the text |
| Text.SplitJoin | app.py:69-70 | splitting a join of separator-free pieces returns the pieces |
| KnowledgeGraph.ParseKey | app.py:69-70 | a key yields one column per `'+'` plus one, none containing `'+'`, each without outer whitespace |
| KnowledgeGraph.ParseKeySegments | app.py:69-70 | a key written as any `'+'`-free segments joined by `'+'` yields exactly those segments, each stripped, in order |
| KnowledgeGraph.ParseKeyClean | app.py:69-70 | clean column names joined by `'+'` parse back to those names |
| KnowledgeGraph.ParseTwoSpaced | app.py:69-70 | `"a + b"` with clean `a`, `b` parses to `[a, b]` |
| KnowledgeGraph.ParseSpacedKey | app.py:69-70 | `"Entity + Counterparty ID"` parses to `["Entity", "Counterparty ID"]` |
| KnowledgeGraph.EdgeOf | app.py:64-80 | the edge keeps the relationship's endpoints and parsed keys; join type, context and description fall back to `INNER`, `default` and `Join t1 with t2` when absent |
| KnowledgeGraph.BuildGraph | app.py:54-80 | one edge per relationship, in record order; first one node per schema table with its column names in dictionary order, then each endpoint not already present, with no columns; node names are distinct |
| KnowledgeGraph.BuildGraphTables | app.py:57-61 | the nodes are exactly the schema tables and the relationship endpoints |
| KnowledgeGraph.EdgesFromMembership | app.py:95 | `get_edge_data(s, t)` holds exactly the stored edges from `s` to `t` |
| KnowledgeGraph.EdgesFromCount | app.py:95 | it holds every copy of each such edge and nothing else |
| PairLoop.RowsMembership | app.py:86-87 | the pair loop yields an element exactly when some pair `i < j` yields it |
| PairLoop.RowsFilter | app.py:86-87 | filtering each pair's pieces is filtering the whole loop's output |
| JoinResolver.ConditionParts | app.py:133-136 | one equality `start.src = end.tgt` per position, up to the shorter key list |
| JoinResolver.CompositeFlag | app.py:141 | the condition contains `" AND "` iff the edge pairs two or more columns, or its single equality itself contains `" AND "` |
| JoinResolver.SelectMembership | app.py:98-127 | an edge survives the filter iff it is a candidate and the filter keeps it |
| JoinResolver.DirectionRecordsMembership | app.py:92-145 | a direction yields a record iff some edge stored in that direction passes the filter among its siblings and the record is that edge's |
| JoinResolver.JoinRelationshipsMembership | app.py:82-147 | a record is emitted iff it is that of a kept edge between `tables[i]` and `tables[j]` for some `i < j`, in either direction |
| JoinResolver.JoinRelationshipsOfDistinct | app.py:82-147 | for distinct tables: emitted iff the record of a kept edge between two different requested tables |
| JoinResolver.JoinRelationshipsOrderIndependent | app.py:86-92 | two orderings of the same distinct tables give the same set of records |
| JoinResolver.FilteredOrder | app.py:82-147 | for any context the result is the records of the visited edges that pass the filter, in visiting order: forward direction before backward, insertion order within |
| JoinResolver.UnfilteredRecords | app.py:103-105 | with no or an empty context, every visited edge yields its record, in visiting order |
| JoinResolver.FilteredLabels | app.py:105-127 | with a context, every emitted label matches it or is exactly `default` |
| JoinResolver.MatchingEdgeEmitted | app.py:110-123 | an edge between two requested tables whose label matches is always emitted |
| JoinResolver.MatchingOrFallbackEmitted | app.py:120-127 | every kept edge between two different requested tables is emitted |
| JoinResolver.DefaultFallback | app.py:111-127 | a non-matching `default` edge is emitted iff no non-default edge of its own ordered direction matches |
| Paths.ShortestPath | app.py:156-160 | `NodeNotFound` iff an endpoint is missing; no path only when the tables are not connected; a found path is a shortest path of the undirected graph |
| Paths.PairsFrom | app.py:154-163 | one row of the loop fails iff a searched pair has an unknown table, else collects exactly the nodes of the found paths |
| Paths.TablesNeededFails | app.py:149-165 | fails iff two or more tables are requested and one of them is not a node |
| Paths.TablesNeededKeepsRequested | app.py:151 | every requested table is in the result |
| Paths.TablesNeededCoversPaths | app.py:153-161 | for each connected pair `i < j` some shortest path lies wholly in the result |
| Paths.TablesNeededOnlyPaths | app.py:151-161 | every table of the result is requested or lies on a shortest path between two requested tables |
| Paths.DisconnectedPairAddsNothing | app.py:162-163 | two disconnected tables need nothing else |
| Paths.BridgeTableIncluded | app.py:156-161 | a table that every path between two requested tables crosses is needed |
| SchemaLookup.Lookup | app.py:169 | an unknown table gets the empty column list |
| SchemaLookup.LookupFound | app.py:169 | a known table gets its own columns |
| SchemaLookup.KeysMembership | app.py:169 | the dictionary's keys are exactly the requested tables, each once |
| SchemaLookup.ColumnsForTablesEntries | app.py:167-169 | an entry exactly for each requested table, holding its columns, or no columns for an unknown table |
| SchemaLookup.ColumnsForDistinctTables | app.py:169 | for distinct tables the entries follow the request order one-to-one |
| GraphExport.ExportGraph | app.py:290-297 | one node entry per node, in node order, with its columns and their count |
| GraphExport.TargetsMembership | app.py:300 | the successors of a node are exactly the tables it has an edge to |
| GraphExport.ExportKeepsPairs | app.py:299-311 | for every ordered pair the exported edges are the stored ones in insertion order |
| GraphExport.ExportIsPermutation | app.py:299-311 | the exported edges are a permutation of the stored edges |
| GraphExport.ExportKeepsJoins | app.py:299-311 | a graph rebuilt from the export resolves every join request exactly as the original |
| ResponseCleanup.DropOpening | app.py:582-585 | a leading `` ```json `` or `` ```sql `` fence is cut first, else a bare `` ``` ``, else nothing |
| ResponseCleanup.DropClosing | app.py:586-587 | a trailing `` ``` `` is cut, else nothing |
| ResponseCleanup.Unfence | app.py:581-588 | the trimmed answer is the opening cut (tagged fence first, else bare fence, else nothing) followed by a rest; the result is that rest less one closing fence when it ends with one, trimmed |
| ResponseCleanup.UnfencedUnique | app.py:581-588 | that description fixes the result: an answer has exactly one unfenced form |
| ResponseCleanup.CleanSql | app.py:689-697 | the SQL answer's unfenced form, with the `sql` tag, with no outer whitespace |
| ResponseCleanup.BraceTest | app.py:591-593 | `start != -1 and end > start` holds iff some `{` precedes some `}` |
| ResponseCleanup.BraceSpanMaximal | app.py:591-594 | the extracted text runs from the first `{` to the last `}` |
| ResponseCleanup.BraceSpanIdempotent | app.py:591-599 | extracting twice is extracting once |
| ResponseCleanup.CleanInfix | app.py:581-597 | both cleanups only cut text away: their results are pieces of the answer |
| ResponseCleanup.UnfenceTagged | app.py:581-588 | a trimmed body in a tagged fence comes back as the body |
| ResponseCleanup.UnfenceBare | app.py:584-588 | a trimmed body in a bare fence comes back as the body |
| ResponseCleanup.UnfenceClean | app.py:581-588 | an answer without fences or outer whitespace is kept unchanged |
| ResponseCleanup.CleanJsonFenced | app.py:581-595 | a JSON object in a `json` fence comes back as the object's text |
| Pipeline.Preview | app.py:536-541 | every table, in order, with its first 15 columns (all of them when it has at most 15) |
| Pipeline.JoinLineOf | app.py:635-645 | the composite warning is shown iff the condition contains `" AND "`; the description iff non-empty |
| Pipeline.JoinLineComposite | app.py:640-641 | the warning is shown iff the edge pairs two or more columns or its single equality contains `" AND "` |
| Pipeline.SetToSeq | app.py:165 | `list(set)` lists each element once and nothing else |
| Pipeline.GetJoinInfo | app.py:604-621 | fails iff table completion fails, with its error; else echoes request and context, lists the needed tables once each, and resolves joins and schemas over that list |
| Pipeline.JoinInfoContents | app.py:604-621 | whatever order `list(set)` takes, the joins are the records of kept edges between two different needed tables, and each needed table has its schema entry |
| Pipeline.SqlPromptOf | app.py:626-652 | the prompt carries the query, the needed tables, one join line per join in order, and the schemas |
| Pipeline.IdentifyTables | app.py:531-602 | a failed model call is reported; otherwise a successful parse of the cleaned answer is the result, and a failed one is a decode error carrying the document handed to the decoder (the brace span when there is one, else the unfenced answer) |
| Pipeline.IdentifyWrappedAnswer | app.py:590-596 | an unfenced answer with prose around one JSON object is decoded as the object's text, and a decode failure carries that text |
| Pipeline.IdentifyFencedAnswer | app.py:581-596 | a fenced JSON object decodes as the object's own text |
| Pipeline.GenerateSql | app.py:623-697 | a failed model call is reported; otherwise the result is the answer trimmed, less one opening `sql` or bare fence and one closing fence, trimmed again; it is a piece of the answer |
| Pipeline.GenerateSqlFenced | app.py:689-697 | a query in a `sql` or bare fence comes back as the query |
| Pipeline.GenerateSqlClean | app.py:689-697 | an already clean query comes back unchanged |
| Pipeline.ResolveAndGenerate | app.py:704-718 | missing `tables` and failed table completion each end with their error; otherwise the outcome carries a valid join information and ends as SQL generation over it; with a model that always answers the run succeeds |
| Pipeline.Process | app.py:699-718 | each stage's failure ends the run with that stage's error; when every stage succeeds the outcome holds the query, the identified tables, a valid join information and the SQL generated over it |
| Scenarios.TwoColumnCondition | app.py:133-141 | a two-column key renders as its two equalities joined by `" AND "` |
| Scenarios.TwoTables | app.py:86-92 | for two tables the forward direction's records come before the backward direction's |
| Scenarios.ContextPicksOneJoin | app.py:105-127 | in the catalogue of update_joins.py:12-33, a context matching one labelled join keeps that join alone, in either table order |
| Scenarios.UnmatchedContextKeepsNothing | app.py:114-127 | a context matching no labelled join keeps none: there is no default to fall back on |
| Scenarios.NoContextKeepsAll | app.py:103-105 | without a context all three labelled joins come back in insertion order |
| Scenarios.DefaultJoinUnderAnyContext | app.py:111-125 | the lone `default` join is kept under any context |
| Scenarios.FallbackIsPerDirection | app.py:92-118 | a `default` edge stored opposite to a matching edge is kept as well |

## Left out

- The Streamlit UI (app.py:725-1005) is presentation only.
- The spreadsheet loaders `load_excel_data` and `build_knowledge_graph` (app.py:320-385)
  are file I/O and caching. Their output is the input records `TableSchema` and
  `Relationship`.
- `save_knowledge_graph` (app.py:388-476) writes GraphML files with timestamps.
- `visualize_graph_plotly` (app.py:171-271) computes a floating-point layout and plots it.
- `get_graph_stats` (app.py:273-281) computes a float average and networkx's weak
  connectivity.
- `GeminiClient` (app.py:483-519) is a network client. The model call is the function
  parameter `llm` from prompts to answers or failures.
- `json.loads` (app.py:595, 598) is the function parameter `parse`.
- Python's `str.lower()` (app.py:106-107, 115) is the function parameter `lower`. Its
  Unicode case mapping is not restated.
- visualize_kg.py, test_setup.py and test_visualization.py are I/O scripts.
- update_joins.py writes a worksheet. Its four rows give the shape used in `Scenarios`.
- The order of `list(set)` (app.py:165) is left open: `Pipeline.SetToSeq` may pick any
  order. The properties that depend on it are stated as sets.
- Paths.ShortestPath: a tie between shortest paths is broken by taking the first adjacent
  node in graph order. networkx's bidirectional search may pick a different path of the
  same length, so when shortest paths tie, the set `Paths.TablesNeeded` returns can differ
  from the program's. `TablesNeededCoversPaths` and `TablesNeededOnlyPaths` are stated for
  any shortest path.
- Pipeline.IdentifyTables: the console print of the schema context (app.py:543) is
  dropped. So is the `st.error` message shown before a decode error is re-raised
  (app.py:601); the decode error carries the document of the re-raised exception
  (app.py:594-602), not the displayed text. The exception's message and position are
  not modelled.
- Pipeline.Prompt: carries the structured content of the two prompts, not their prose.
  The system instructions (app.py:574, 684) are not carried either.
- Pipeline.Process: `parse` returns `TableInfo`, so it cannot represent these cases:
  - `json.loads` returning something other than an object;
  - a `tables` value that is not a list;
  - a `context` that is not a string.

  A truthy non-string context would raise `AttributeError` at app.py:106. The model has
  no such failure.
- KnowledgeGraph.Relationship: a key that is present with the value `None` cannot be
  represented. `rel.get` would then return `None` rather than the default
  (app.py:77-79). Each optional field is either absent or holds a string.
