/**
 * `TextToSQLPipeline` (app.py) around the knowledge graph: ask the model which
 * tables a question needs, complete them with connecting tables, resolve the joins
 * and the schemas, and ask the model for SQL. The language model is a function
 * from prompts to answers (or a call failure), and `json.loads` of the identified
 * tables is a function from text to a parsed answer (or a decoding failure); the
 * prompts carry their structured content, not their prose.
 */
module Pipeline {
  import opened Wrappers
  import opened Text
  import opened KnowledgeGraph
  import opened JoinResolver
  import opened Paths
  import opened SchemaLookup
  import opened ResponseCleanup

  /** The knowledge graph object: its schema dictionary and relationship records. */
  datatype KnowledgeBase = KnowledgeBase(schemas: seq<TableSchema>, relationships: seq<Relationship>)

  predicate ValidBase(kb: KnowledgeBase) {
    UniqueTableNames(kb.schemas)
  }

  /** The graph `TableKnowledgeGraph.__init__` builds. */
  function GraphOf(kb: KnowledgeBase): Graph
    requires ValidBase(kb)
  {
    BuildGraph(kb.schemas, kb.relationships)
  }

  /** The parsed table-identification answer: its `tables` list and `context`, when present. */
  datatype TableInfo = TableInfo(tables: Option<seq<string>>, context: Option<string>)

  /** How many columns of each table the table-identification prompt shows. */
  const PreviewColumns: nat := 15

  /** One join of the SQL prompt, with the composite warning and the description line when shown. */
  datatype JoinLine = JoinLine(
    fromTable: string,
    joinType: string,
    toTable: string,
    condition: string,
    composite: bool,
    description: Option<string>)

  /** The structured content of the two prompts. */
  datatype Prompt =
    | IdentifyPrompt(preview: seq<TableSchema>, query: string)
    | SqlPrompt(query: string, tables: seq<string>, joins: seq<JoinLine>, schemas: seq<TableSchema>)

  /** The ways `process` can fail. */
  datatype Failure =
    | ModelCallFailed(message: string)
    | JsonDecodeError(text: string)
    | MissingTablesKey
    | TableNotFound(missing: MissingTable)

  /** The result of `get_join_info`. */
  datatype JoinInfo = JoinInfo(
    requestedTables: seq<string>,
    allTablesNeeded: seq<string>,
    joins: seq<JoinRecord>,
    schemas: seq<TableSchema>,
    context: Option<string>)

  /** The result of `process`. */
  datatype Outcome = Outcome(userQuery: string, tableInfo: TableInfo, joinInfo: JoinInfo, sqlQuery: string)

  /** The schema context of `identify_tables`: every table, with at most its first 15 columns. */
  function Preview(schemas: seq<TableSchema>): (r: seq<TableSchema>)
    ensures |r| == |schemas|
    ensures forall k :: 0 <= k < |schemas| ==>
              && r[k].name == schemas[k].name
              && |r[k].columns| <= PreviewColumns
              && |r[k].columns| <= |schemas[k].columns|
              && r[k].columns == schemas[k].columns[..|r[k].columns|]
              && (|schemas[k].columns| <= PreviewColumns ==> r[k].columns == schemas[k].columns)
              && (|schemas[k].columns| > PreviewColumns ==> |r[k].columns| == PreviewColumns)
  {
    seq(|schemas|, k requires 0 <= k < |schemas| =>
          var cs := schemas[k].columns;
          TableSchema(schemas[k].name, if |cs| <= PreviewColumns then cs else cs[..PreviewColumns]))
  }

  /** How `generate_sql` lists one join: the warning when the condition holds `" AND "`, the description when non-empty. */
  function JoinLineOf(j: JoinRecord): (r: JoinLine)
    ensures r.composite <==> Contains(j.condition, AndSeparator)
    ensures r.description.Some? <==> j.description != ""
    ensures r.description.Some? ==> r.description.value == j.description
  {
    JoinLine(j.fromTable, j.joinType, j.toTable, j.condition, Contains(j.condition, AndSeparator),
             if j.description == "" then None else Some(j.description))
  }

  /**
   * The composite warning of a resolved edge is raised exactly when its condition
   * holds two or more equalities, or a single equality whose own text contains `" AND "`.
   */
  lemma JoinLineComposite(e: Edge)
    ensures JoinLineOf(ToRecord(e)).composite <==>
              |ConditionParts(e)| >= 2 || (|ConditionParts(e)| == 1 && Contains(ConditionParts(e)[0], AndSeparator))
  {
    CompositeFlag(e);
  }

  /** `list(set)`: the elements of a set, each once, in an order the language leaves open. */
  method SetToSeq(s: set<string>) returns (r: seq<string>)
    ensures Distinct(r)
    ensures |r| == |s|
    ensures forall x :: x in r <==> x in s
  {
    r := [];
    var rest := s;
    while rest != {}
      invariant rest <= s
      invariant Distinct(r)
      invariant forall x :: x in r <==> x in s && x !in rest
      invariant |r| + |rest| == |s|
      decreases |rest|
    {
      var x :| x in rest;
      r := r + [x];
      rest := rest - {x};
    }
  }

  /**
   * `info` is a possible result of `get_join_info(tables, context)`: the request and
   * context echoed, the needed tables once each (in the order `list(set)` happened to
   * give), and the joins and schemas computed over that same list.
   */
  ghost predicate JoinInfoFor(kb: KnowledgeBase, tables: seq<string>, lower: Fold, context: Option<string>, info: JoinInfo)
    requires ValidBase(kb)
  {
    && TablesNeeded(GraphOf(kb), tables).Ok?
    && info.requestedTables == tables
    && info.context == context
    && Distinct(info.allTablesNeeded)
    && (forall t :: t in info.allTablesNeeded <==> t in TablesNeeded(GraphOf(kb), tables).value)
    && info.joins == JoinRelationships(GraphOf(kb), info.allTablesNeeded, lower, context)
    && info.schemas == ColumnsForTables(kb.schemas, info.allTablesNeeded)
  }

  /**
   * `get_join_info(tables, context)`: the tables needed (the requested ones and the
   * connecting ones), the joins among them and their schemas.
   */
  method GetJoinInfo(kb: KnowledgeBase, tables: seq<string>, lower: Fold, context: Option<string>)
    returns (r: Result<JoinInfo, Failure>)
    requires ValidBase(kb)
    ensures r.Err? <==> TablesNeeded(GraphOf(kb), tables).Err?
    ensures r.Err? ==> r.error == TableNotFound(TablesNeeded(GraphOf(kb), tables).error)
    ensures r.Ok? ==>
              && r.value.requestedTables == tables
              && r.value.context == context
              && Distinct(r.value.allTablesNeeded)
              && (forall t :: t in r.value.allTablesNeeded <==> t in TablesNeeded(GraphOf(kb), tables).value)
              && r.value.joins == JoinRelationships(GraphOf(kb), r.value.allTablesNeeded, lower, context)
              && r.value.schemas == ColumnsForTables(kb.schemas, r.value.allTablesNeeded)
  {
    var g := GraphOf(kb);
    match TablesNeeded(g, tables)
    case Err(e) =>
      r := Err(TableNotFound(e));
    case Ok(needed) =>
      var all := SetToSeq(needed);
      var joins := JoinRelationships(g, all, lower, context);
      var schemas := ColumnsForTables(kb.schemas, all);
      r := Ok(JoinInfo(tables, all, joins, schemas, context));
  }

  /**
   * Whatever order `list(set)` picks, the joins of `get_join_info` are the records of
   * the edges between two different needed tables that the context filter keeps, and
   * every needed table has its schema entry.
   */
  lemma JoinInfoContents(kb: KnowledgeBase, info: JoinInfo, tables: seq<string>, lower: Fold, context: Option<string>)
    requires ValidBase(kb)
    requires JoinInfoFor(kb, tables, lower, context, info)
    ensures forall r :: r in info.joins <==>
              exists e :: e in GraphOf(kb).edges
                          && e.fromTable in TablesNeeded(GraphOf(kb), tables).value
                          && e.toTable in TablesNeeded(GraphOf(kb), tables).value
                          && e.fromTable != e.toTable
                          && Keep(lower, context, e, EdgesFrom(GraphOf(kb).edges, e.fromTable, e.toTable))
                          && r == ToRecord(e)
    ensures |info.schemas| == |info.allTablesNeeded|
    ensures forall k :: 0 <= k < |info.schemas| ==> info.schemas[k].name == info.allTablesNeeded[k]
  {
    forall r ensures r in info.joins <==>
              exists e :: e in GraphOf(kb).edges
                          && e.fromTable in TablesNeeded(GraphOf(kb), tables).value
                          && e.toTable in TablesNeeded(GraphOf(kb), tables).value
                          && e.fromTable != e.toTable
                          && Keep(lower, context, e, EdgesFrom(GraphOf(kb).edges, e.fromTable, e.toTable))
                          && r == ToRecord(e)
    {
      JoinRelationshipsOfDistinct(GraphOf(kb), info.allTablesNeeded, lower, context, r);
    }
    ColumnsForDistinctTables(kb.schemas, info.allTablesNeeded);
  }

  /** The structured content of the SQL prompt of `generate_sql`. */
  function SqlPromptOf(query: string, info: JoinInfo): (p: Prompt)
    ensures p.SqlPrompt? && p.query == query && p.tables == info.allTablesNeeded && p.schemas == info.schemas
    ensures |p.joins| == |info.joins|
    ensures forall k :: 0 <= k < |info.joins| ==> p.joins[k] == JoinLineOf(info.joins[k])
  {
    SqlPrompt(query, info.allTablesNeeded,
              seq(|info.joins|, k requires 0 <= k < |info.joins| => JoinLineOf(info.joins[k])),
              info.schemas)
  }

  /**
   * `identify_tables(user_query)`: ask the model with the schema preview, strip any
   * markdown fence, cut the outermost braces and decode the rest. A decoding failure
   * reports the document that was handed to the decoder.
   */
  function IdentifyTables(schemas: seq<TableSchema>, query: string,
                          llm: Prompt -> Result<string, string>, parse: string -> Option<TableInfo>)
    : (r: Result<TableInfo, Failure>)
    ensures llm(IdentifyPrompt(Preview(schemas), query)).Err? ==>
              r == Err(ModelCallFailed(llm(IdentifyPrompt(Preview(schemas), query)).error))
    ensures r.Ok? ==>
              && llm(IdentifyPrompt(Preview(schemas), query)).Ok?
              && parse(CleanJson(llm(IdentifyPrompt(Preview(schemas), query)).value)) == Some(r.value)
    ensures (llm(IdentifyPrompt(Preview(schemas), query)).Ok?
             && parse(CleanJson(llm(IdentifyPrompt(Preview(schemas), query)).value)).Some?) ==>
              r == Ok(parse(CleanJson(llm(IdentifyPrompt(Preview(schemas), query)).value)).value)
    ensures (llm(IdentifyPrompt(Preview(schemas), query)).Ok?
             && parse(CleanJson(llm(IdentifyPrompt(Preview(schemas), query)).value)).None?) ==>
              r == Err(JsonDecodeError(CleanJson(llm(IdentifyPrompt(Preview(schemas), query)).value)))
  {
    match llm(IdentifyPrompt(Preview(schemas), query))
    case Err(message) => Err(ModelCallFailed(message))
    case Ok(answer) =>
      var document := CleanJson(answer);
      match parse(document)
      case None => Err(JsonDecodeError(document))
      case Some(info) => Ok(info)
  }

  /**
   * An answer that is one JSON object in a `json` fence is decoded exactly as the
   * object's own text.
   */
  lemma IdentifyFencedAnswer(schemas: seq<TableSchema>, query: string, obj: string,
                             llm: Prompt -> Result<string, string>, parse: string -> Option<TableInfo>)
    requires |obj| >= 2 && obj[0] == '{' && obj[|obj| - 1] == '}'
    requires llm(IdentifyPrompt(Preview(schemas), query)) == Ok(JsonFence + "\n" + obj + "\n" + Fence)
    requires parse(obj).Some?
    ensures IdentifyTables(schemas, query, llm, parse) == Ok(parse(obj).value)
  {
    CleanJsonFenced(obj);
  }

  /**
   * An unfenced answer with prose around one JSON object (no `{` before it, no `}`
   * after it) is decoded as the object's own text; when that text does not decode,
   * the failure carries the object's text.
   */
  lemma IdentifyWrappedAnswer(schemas: seq<TableSchema>, query: string, pre: string, obj: string, post: string,
                              llm: Prompt -> Result<string, string>, parse: string -> Option<TableInfo>)
    requires |obj| >= 2 && obj[0] == '{' && obj[|obj| - 1] == '}'
    requires '{' !in pre && '}' !in post
    requires Trimmed(pre + obj + post) && !StartsWith(pre + obj + post, Fence) && !EndsWith(pre + obj + post, Fence)
    requires llm(IdentifyPrompt(Preview(schemas), query)) == Ok(pre + obj + post)
    ensures parse(obj).Some? ==> IdentifyTables(schemas, query, llm, parse) == Ok(parse(obj).value)
    ensures parse(obj).None? ==> IdentifyTables(schemas, query, llm, parse) == Err(JsonDecodeError(obj))
  {
    UnfenceClean(pre + obj + post, JsonFence);
    BraceSpanWrapped(pre, obj, post);
  }

  /** `generate_sql(user_query, join_info)`: ask the model with the join prompt and strip any `sql` fence. */
  function GenerateSql(query: string, info: JoinInfo, llm: Prompt -> Result<string, string>)
    : (r: Result<string, Failure>)
    ensures llm(SqlPromptOf(query, info)).Err? ==> r == Err(ModelCallFailed(llm(SqlPromptOf(query, info)).error))
    ensures llm(SqlPromptOf(query, info)).Ok? ==> r == Ok(CleanSql(llm(SqlPromptOf(query, info)).value))
    ensures llm(SqlPromptOf(query, info)).Ok? ==>
              Trimmed(r.value) && Unfenced(llm(SqlPromptOf(query, info)).value, SqlFence, r.value)
    ensures r.Ok? ==> Infix(r.value, llm(SqlPromptOf(query, info)).value)
  {
    match llm(SqlPromptOf(query, info))
    case Err(message) => Err(ModelCallFailed(message))
    case Ok(answer) =>
      CleanInfix(answer);
      Ok(CleanSql(answer))
  }

  /** A query in a `sql` fence, or a bare fence, comes back as the query itself. */
  lemma GenerateSqlFenced(query: string, info: JoinInfo, llm: Prompt -> Result<string, string>, sql: string)
    requires Trimmed(sql)
    requires llm(SqlPromptOf(query, info)) == Ok(SqlFence + "\n" + sql + "\n" + Fence)
          || llm(SqlPromptOf(query, info)) == Ok(Fence + "\n" + sql + "\n" + Fence)
    ensures GenerateSql(query, info, llm) == Ok(sql)
  {
    UnfenceTagged(SqlFence, sql);
    UnfenceBare(SqlFence, sql);
  }

  /** A model answer that is already a clean query is kept unchanged. */
  lemma GenerateSqlClean(query: string, info: JoinInfo, llm: Prompt -> Result<string, string>, sql: string)
    requires Trimmed(sql) && !StartsWith(sql, Fence) && !EndsWith(sql, Fence)
    requires llm(SqlPromptOf(query, info)) == Ok(sql)
    ensures GenerateSql(query, info, llm) == Ok(sql)
  {
    UnfenceClean(sql, SqlFence);
  }

  /**
   * The stages of `process` after table identification: resolve the join information
   * for the identified tables and context, then generate SQL over it.
   */
  method ResolveAndGenerate(kb: KnowledgeBase, query: string, llm: Prompt -> Result<string, string>,
                            lower: Fold, info: TableInfo)
    returns (r: Result<Outcome, Failure>)
    requires ValidBase(kb)
    ensures info.tables.None? ==> r == Err(MissingTablesKey)
    ensures info.tables.Some? && TablesNeeded(GraphOf(kb), info.tables.value).Err? ==>
              r == Err(TableNotFound(TablesNeeded(GraphOf(kb), info.tables.value).error))
    ensures info.tables.Some? && TablesNeeded(GraphOf(kb), info.tables.value).Ok? ==>
              exists joinInfo :: JoinInfoFor(kb, info.tables.value, lower, info.context, joinInfo)
                                 && (GenerateSql(query, joinInfo, llm).Ok? ==>
                                       r == Ok(Outcome(query, info, joinInfo, GenerateSql(query, joinInfo, llm).value)))
                                 && (GenerateSql(query, joinInfo, llm).Err? ==> r == Err(GenerateSql(query, joinInfo, llm).error))
    ensures (info.tables.Some? && TablesNeeded(GraphOf(kb), info.tables.value).Ok? && forall p :: llm(p).Ok?) ==> r.Ok?
    ensures r.Ok? ==>
              && r.value.userQuery == query
              && r.value.tableInfo == info
              && info.tables.Some?
              && JoinInfoFor(kb, info.tables.value, lower, info.context, r.value.joinInfo)
              && GenerateSql(query, r.value.joinInfo, llm) == Ok(r.value.sqlQuery)
  {
    if info.tables.None? {
      return Err(MissingTablesKey);
    }
    var joinInfo := GetJoinInfo(kb, info.tables.value, lower, info.context);
    if joinInfo.Err? {
      return Err(joinInfo.error);
    }
    var ji := joinInfo.value;
    assert JoinInfoFor(kb, info.tables.value, lower, info.context, ji);
    var sql := GenerateSql(query, ji, llm);
    if sql.Err? {
      assert llm(SqlPromptOf(query, ji)).Err?;
      r := Err(sql.error);
    } else {
      r := Ok(Outcome(query, info, ji, sql.value));
    }
  }

  /**
   * `process(user_query)`: identify the tables, resolve the joins, generate SQL.
   * A failed model call, an answer that does not decode, an answer without
   * `tables`, and an unknown table (among two or more) each end the run with that
   * error; once the join information is resolved, the run ends as SQL generation
   * over it does.
   */
  method Process(kb: KnowledgeBase, query: string, llm: Prompt -> Result<string, string>,
                 parse: string -> Option<TableInfo>, lower: Fold)
    returns (r: Result<Outcome, Failure>)
    requires ValidBase(kb)
    ensures var id := IdentifyTables(kb.schemas, query, llm, parse);
            id.Err? ==> r == Err(id.error)
    ensures var id := IdentifyTables(kb.schemas, query, llm, parse);
            id.Ok? && id.value.tables.None? ==> r == Err(MissingTablesKey)
    ensures var id := IdentifyTables(kb.schemas, query, llm, parse);
            id.Ok? && id.value.tables.Some? && TablesNeeded(GraphOf(kb), id.value.tables.value).Err? ==>
              r == Err(TableNotFound(TablesNeeded(GraphOf(kb), id.value.tables.value).error))
    ensures var id := IdentifyTables(kb.schemas, query, llm, parse);
            id.Ok? && id.value.tables.Some? && TablesNeeded(GraphOf(kb), id.value.tables.value).Ok? ==>
              exists info :: JoinInfoFor(kb, id.value.tables.value, lower, id.value.context, info)
                             && (GenerateSql(query, info, llm).Ok? ==>
                                   r == Ok(Outcome(query, id.value, info, GenerateSql(query, info, llm).value)))
                             && (GenerateSql(query, info, llm).Err? ==> r == Err(GenerateSql(query, info, llm).error))
    ensures var id := IdentifyTables(kb.schemas, query, llm, parse);
            (id.Ok? && id.value.tables.Some? && TablesNeeded(GraphOf(kb), id.value.tables.value).Ok?
             && forall p :: llm(p).Ok?) ==> r.Ok?
    ensures r.Ok? ==>
              && r.value.userQuery == query
              && IdentifyTables(kb.schemas, query, llm, parse) == Ok(r.value.tableInfo)
              && r.value.tableInfo.tables.Some?
              && JoinInfoFor(kb, r.value.tableInfo.tables.value, lower, r.value.tableInfo.context, r.value.joinInfo)
              && GenerateSql(query, r.value.joinInfo, llm) == Ok(r.value.sqlQuery)
  {
    var identified := IdentifyTables(kb.schemas, query, llm, parse);
    if identified.Err? {
      return Err(identified.error);
    }
    r := ResolveAndGenerate(kb, query, llm, lower, identified.value);
  }
}
