/**
 * `get_columns_for_tables` (app.py): a dictionary from each requested table to its
 * schema columns, with an empty column list for a table the schemas do not know.
 * A dictionary keeps one entry per key, in the order keys were first inserted.
 */
module SchemaLookup {
  import opened Text
  import opened KnowledgeGraph

  /** `schemas.get(table, [])`. */
  function Lookup(schemas: seq<TableSchema>, table: string): (r: seq<Column>)
    ensures (forall k :: 0 <= k < |schemas| ==> schemas[k].name != table) ==> r == []
  {
    if |schemas| == 0 then []
    else if schemas[0].name == table then schemas[0].columns
    else Lookup(schemas[1..], table)
  }

  /** A table of the schemas is looked up to its own columns. */
  lemma {:induction false} LookupFound(schemas: seq<TableSchema>, k: nat)
    requires UniqueTableNames(schemas)
    requires k < |schemas|
    ensures Lookup(schemas, schemas[k].name) == schemas[k].columns
  {
    if k > 0 {
      var rest := schemas[1..];
      assert schemas[0].name != schemas[k].name;
      assert UniqueTableNames(rest) by {
        forall i, j | 0 <= i < j < |rest| ensures rest[i].name != rest[j].name {
          assert rest[i] == schemas[i + 1] && rest[j] == schemas[j + 1];
        }
      }
      assert rest[k - 1] == schemas[k];
      LookupFound(rest, k - 1);
    }
  }

  /** The keys of a dictionary built by inserting `keys` in order: each once, at its first insertion. */
  function Keys(keys: seq<string>): (r: seq<string>)
    ensures Distinct(r)
    ensures |r| <= |keys|
  {
    if |keys| == 0 then []
    else
      var earlier := Keys(keys[..|keys| - 1]);
      var k := keys[|keys| - 1];
      if k in earlier then earlier else earlier + [k]
  }

  /** The dictionary holds a key exactly when it was inserted. */
  lemma {:induction false} KeysMembership(keys: seq<string>)
    ensures forall t :: t in Keys(keys) <==> t in keys
  {
    if |keys| > 0 {
      var init := keys[..|keys| - 1];
      KeysMembership(init);
      assert keys == init + [keys[|keys| - 1]];
    }
  }

  /** Inserting distinct keys keeps them all, in order. */
  lemma {:induction false} KeysOfDistinct(keys: seq<string>)
    requires Distinct(keys)
    ensures Keys(keys) == keys
  {
    if |keys| > 0 {
      var init := keys[..|keys| - 1];
      assert Distinct(init) by {
        forall i, j | 0 <= i < j < |init| ensures init[i] != init[j] {
          assert init[i] == keys[i] && init[j] == keys[j];
        }
      }
      KeysOfDistinct(init);
      assert keys[|keys| - 1] !in init by {
        forall i | 0 <= i < |init| ensures init[i] != keys[|keys| - 1] {
          assert init[i] == keys[i];
        }
      }
      assert keys == init + [keys[|keys| - 1]];
    }
  }

  /** `get_columns_for_tables(tables)`: one entry per requested table, in first-request order. */
  function ColumnsForTables(schemas: seq<TableSchema>, tables: seq<string>): (r: seq<TableSchema>)
    ensures UniqueTableNames(r)
    ensures |r| <= |tables|
  {
    var keys := Keys(tables);
    seq(|keys|, k requires 0 <= k < |keys| => TableSchema(keys[k], Lookup(schemas, keys[k])))
  }

  /**
   * Each requested table has exactly one entry, no other table has one, and the entry
   * carries the table's schema columns, or none for a table the schemas do not list.
   */
  lemma ColumnsForTablesEntries(schemas: seq<TableSchema>, tables: seq<string>)
    requires UniqueTableNames(schemas)
    ensures forall t :: t in tables <==> exists k :: 0 <= k < |ColumnsForTables(schemas, tables)|
                                                   && ColumnsForTables(schemas, tables)[k].name == t
    ensures forall k, i :: 0 <= k < |ColumnsForTables(schemas, tables)| && 0 <= i < |schemas|
                           && schemas[i].name == ColumnsForTables(schemas, tables)[k].name
                           ==> ColumnsForTables(schemas, tables)[k].columns == schemas[i].columns
    ensures forall k :: 0 <= k < |ColumnsForTables(schemas, tables)|
                        && (forall i :: 0 <= i < |schemas| ==> schemas[i].name != ColumnsForTables(schemas, tables)[k].name)
                        ==> ColumnsForTables(schemas, tables)[k].columns == []
  {
    var r := ColumnsForTables(schemas, tables);
    KeysMembership(tables);
    forall t | t in tables ensures exists k :: 0 <= k < |r| && r[k].name == t {
      var k :| 0 <= k < |Keys(tables)| && Keys(tables)[k] == t;
      assert r[k].name == t;
    }
    forall k, i | 0 <= k < |r| && 0 <= i < |schemas| && schemas[i].name == r[k].name
      ensures r[k].columns == schemas[i].columns
    {
      LookupFound(schemas, i);
    }
  }

  /** For distinct tables, as `get_all_tables_needed` returns them, the entries follow the request order. */
  lemma ColumnsForDistinctTables(schemas: seq<TableSchema>, tables: seq<string>)
    requires Distinct(tables)
    ensures |ColumnsForTables(schemas, tables)| == |tables|
    ensures forall k :: 0 <= k < |tables| ==> ColumnsForTables(schemas, tables)[k].name == tables[k]
  {
    KeysOfDistinct(tables);
  }
}
