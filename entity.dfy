/**
 * One row of `vault_table` and the constraints the table declares on its rows:
 * the autogenerated primary key `id` and the unique index on `supabase_id`.
 * Every column is a non-null Kotlin `String` (or `Long`), so a row can never
 * hold a null; here that is simply the type.
 */
module Entity {

  /** A stored message. `id == 0` in an entity that is about to be inserted means "let the store assign it". */
  datatype MessageEntity = MessageEntity(
    id: int,
    supabaseId: string,
    sourceApp: string,
    header: string,
    payload: string,
    timestamp: string,
    filePath: string)

  /**
   * Rows are kept in primary-key (rowid) order, the order SQLite stores them in:
   * strictly ascending ids, so no two rows share an id.
   */
  predicate IdsAscending(rows: seq<MessageEntity>) {
    forall i, j :: 0 <= i < j < |rows| ==> rows[i].id < rows[j].id
  }

  /** The unique index on `supabase_id`: at most one row per remote id. */
  predicate UniqueSupabaseIds(rows: seq<MessageEntity>) {
    forall i, j :: 0 <= i < j < |rows| ==> rows[i].supabaseId != rows[j].supabaseId
  }

  /**
   * AUTOINCREMENT bookkeeping: `lastId` is the largest id the table has ever held
   * (SQLite's `sqlite_sequence` entry), so every present id is at most `lastId`.
   * No row has id 0, because an id of 0 is always replaced by a generated one.
   */
  predicate WithinCounter(rows: seq<MessageEntity>, lastId: int) {
    0 <= lastId && forall i :: 0 <= i < |rows| ==> rows[i].id != 0 && rows[i].id <= lastId
  }

  /** All constraints `vault_table` maintains. */
  predicate TableInvariant(rows: seq<MessageEntity>, lastId: int): (r: bool)
    ensures r ==> forall x, y :: x in rows && y in rows && (x.id == y.id || x.supabaseId == y.supabaseId) ==> x == y
    ensures r ==> forall x :: x in rows ==> x.id != 0 && x.id <= lastId
  {
    var r := IdsAscending(rows) && UniqueSupabaseIds(rows) && WithinCounter(rows, lastId);
    assert r ==> forall x, y :: x in rows && y in rows && (x.id == y.id || x.supabaseId == y.supabaseId) ==> x == y by {
      if r {
        forall x, y | x in rows && y in rows && (x.id == y.id || x.supabaseId == y.supabaseId) ensures x == y {
          var i :| 0 <= i < |rows| && rows[i] == x;
          var j :| 0 <= j < |rows| && rows[j] == y;
        }
      }
    }
    r
  }

  /** The remote ids present in the table. */
  function KeysOf(rows: seq<MessageEntity>): set<string> {
    set x | x in rows :: x.supabaseId
  }
}
