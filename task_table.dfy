/**
 * The tasks table of the local SQLite database, reduced to what the local
 * data source asks of it: rows keyed by entry id, an insert that replaces the
 * row on a key conflict, an update and a delete restricted by a selection, a
 * query, and the conversions between a Task and a row.
 *
 * Selections written with `LIKE ?` are modelled as plain equality; the
 * wildcard and case-folding rules of LIKE are not modelled.
 */
module TaskTable {
  import opened Tasks

  /** One row: the entry id, title and description columns, and the completed column (an integer). */
  datatype Row = Row(entryId: string, title: string, description: string, completed: int)

  /** The table, indexed by its key column, the entry id. */
  type Table = map<string, Row>

  /** The integer a boolean column value is stored as. */
  function Flag(b: bool): (f: int)
    ensures f == 1 <==> b
    ensures f == 0 <==> !b
  {
    if b then 1 else 0
  }

  /** The column values `saveTask` puts for a task; decoding them gives the task back. */
  function ToRow(t: Task): (r: Row)
    ensures r.entryId == t.id
    ensures r.completed == 0 || r.completed == 1
    ensures FromRow(r) == t
  {
    Row(t.id, t.title, t.description, Flag(t.completed))
  }

  /** The cursor decoder shared by getTask and getTasks: the completed column is read as `== 1`. */
  function FromRow(r: Row): (t: Task)
  {
    Task(r.entryId, r.title, r.description, r.completed == 1)
  }

  /** A row whose flag is 0 or 1 is exactly the row its decoded task encodes to. */
  lemma RowRoundTrip(r: Row)
    requires r.completed == 0 || r.completed == 1
    ensures ToRow(FromRow(r)) == r
  {
  }

  /** Every row sits under its own entry id. */
  ghost predicate Keyed(table: Table)
  {
    forall id :: id in table ==> table[id].entryId == id
  }

  /** The table the local data source keeps: keyed, and every flag written as 0 or 1. */
  ghost predicate WellFormed(table: Table)
  {
    Keyed(table) && forall id :: id in table ==> table[id].completed == 0 || table[id].completed == 1
  }

  /** The WHERE clauses the local data source uses; the empty clause selects every row. */
  datatype Selection = AllRows | EntryIdIs(id: string) | CompletedIs(flag: int)

  predicate Matches(sel: Selection, r: Row)
  {
    match sel
    case AllRows => true
    case EntryIdIs(id) => r.entryId == id
    case CompletedIs(flag) => r.completed == flag
  }

  /** SELECT: the rows the selection matches. */
  function Query(table: Table, sel: Selection): (found: set<Row>)
    ensures forall r :: r in found <==> r in table.Values && Matches(sel, r)
  {
    set id | id in table && Matches(sel, table[id]) :: table[id]
  }

  /** INSERT with CONFLICT_REPLACE: the row is stored under its id, replacing any row there. */
  function Insert(table: Table, row: Row): (t: Table)
    ensures t.Keys == table.Keys + {row.entryId}
    ensures t[row.entryId] == row
    ensures forall id :: id in table && id != row.entryId ==> t[id] == table[id]
    ensures Keyed(table) ==> Keyed(t)
  {
    table[row.entryId := row]
  }

  /** UPDATE of the completed column: every selected row gets the flag, nothing else changes. */
  function Update(table: Table, sel: Selection, flag: int): (t: Table)
    ensures t.Keys == table.Keys
    ensures forall id :: id in table && Matches(sel, table[id]) ==> t[id] == table[id].(completed := flag)
    ensures forall id :: id in table && !Matches(sel, table[id]) ==> t[id] == table[id]
    ensures Keyed(table) ==> Keyed(t)
  {
    map id | id in table :: if Matches(sel, table[id]) then table[id].(completed := flag) else table[id]
  }

  /** DELETE: exactly the selected rows go, the others stay as they were. */
  function Delete(table: Table, sel: Selection): (t: Table)
    ensures forall id :: id in t <==> id in table && !Matches(sel, table[id])
    ensures forall id :: id in t ==> t[id] == table[id]
    ensures Keyed(table) ==> Keyed(t)
  {
    map id | id in table && !Matches(sel, table[id]) :: table[id]
  }

  /** A query result mapped row by row through the cursor decoder. */
  function Decode(found: set<Row>): (ts: set<Task>)
  {
    set r | r in found :: FromRow(r)
  }

  /** On a keyed table, selecting by entry id finds the one row under that id, or none. */
  lemma QueryById(table: Table, id: string)
    requires Keyed(table)
    ensures Query(table, EntryIdIs(id)) == if id in table then {table[id]} else {}
  {
  }

  /** Decoding the full table gives one task per row: no two rows decode to the same task. */
  lemma {:induction false} DecodedCount(table: Table)
    requires Keyed(table)
    ensures |Decode(Query(table, AllRows))| == |table|
  {
    if table != map[] {
      var k :| k in table;
      DecodedCount(table - {k});
      DecodedWithout(table, k);
      assert |table| == |table - {k}| + 1;
    }
  }

  /** Taking one row out of a keyed table takes exactly its task out of the decoded rows. */
  lemma DecodedWithout(table: Table, k: string)
    requires Keyed(table) && k in table
    ensures Decode(Query(table, AllRows)) == Decode(Query(table - {k}, AllRows)) + {FromRow(table[k])}
    ensures FromRow(table[k]) !in Decode(Query(table - {k}, AllRows))
  {
    var rest := table - {k};
    assert table.Values == rest.Values + {table[k]} by {
      forall r | r in table.Values ensures r in rest.Values + {table[k]} {
        var id :| id in table && table[id] == r;
        if id != k {
          assert rest[id] == r;
        }
      }
    }
    assert Query(table, AllRows) == Query(rest, AllRows) + {table[k]};
  }

  /** Saving the same row twice leaves the table as saving it once. */
  lemma InsertIdempotent(table: Table, row: Row)
    ensures Insert(Insert(table, row), row) == Insert(table, row)
  {
  }

  /** Deleting by the same selection twice leaves the table as deleting once. */
  lemma DeleteIdempotent(table: Table, sel: Selection)
    ensures Delete(Delete(table, sel), sel) == Delete(table, sel)
  {
  }

  /**
   * Setting a row's flag to 1 and then to 0 is the same as setting it to 0;
   * on a row that was active, the table comes back as it was.
   */
  lemma CompleteThenActivate(table: Table, id: string)
    ensures Update(Update(table, EntryIdIs(id), 1), EntryIdIs(id), 0) == Update(table, EntryIdIs(id), 0)
    ensures Keyed(table) && id in table && table[id].completed == 0 ==>
              Update(Update(table, EntryIdIs(id), 1), EntryIdIs(id), 0) == table
  {
  }

  /** Deleting the rows whose flag is 1 leaves exactly the decoded tasks that are not completed. */
  lemma ClearCompletedKeepsActive(table: Table)
    ensures Decode(Query(Delete(table, CompletedIs(1)), AllRows))
         == set t | t in Decode(Query(table, AllRows)) && !t.completed
  {
  }
}
