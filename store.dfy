/** The in-memory SQLite table `input (elf_id integer, item_id integer, calories integer)`:
    rows are only ever appended to it. */
module Store {

  /** One row of the table; the calories are the line's text as it was bound. */
  datatype Row = Row(elfId: nat, itemId: nat, calories: string)

  /** The distinct `elf_id` values present in a table. */
  function ElfIds(rows: seq<Row>): (ids: set<nat>)
    ensures forall k :: 0 <= k < |rows| ==> rows[k].elfId in ids
    ensures forall g :: g in ids ==> exists k :: 0 <= k < |rows| && rows[k].elfId == g
  {
    set k | 0 <= k < |rows| :: rows[k].elfId
  }

  /** The database connection with its one table. */
  class Database {
    var rows: seq<Row>

    /** The database after `create table input (...)`: the table exists and is empty. */
    constructor ()
      ensures rows == []
    {
      rows := [];
    }

    /** `my_sql_insert`: appends one row and changes nothing else. */
    method Insert(elfId: nat, itemId: nat, calories: string)
      modifies this
      ensures rows == old(rows) + [Row(elfId, itemId, calories)]
    {
      rows := rows + [Row(elfId, itemId, calories)];
    }
  }
}
