/**
 * The `MessageDao` operations on `vault_table`.
 *
 * The table's state is its rows, kept in primary-key order, together with the
 * AUTOINCREMENT high-water mark. `insert` (REPLACE on conflict) and `deleteAll`
 * change that state in place and are methods of the class `MessageDao`; the
 * two queries are one-shot functions over the current rows. `InsertReplace`
 * is the value-level meaning of `insert`, used both to specify the method and
 * by the sync cycle's specification.
 */
module Dao {
  import opened Entity
  import opened SqlLike

  /** A snapshot of `vault_table`: its rows in id order and its `sqlite_sequence` value. */
  datatype Table = Table(rows: seq<MessageEntity>, lastId: int)

  predicate Consistent(t: Table) {
    TableInvariant(t.rows, t.lastId)
  }

  // ---------------------------------------------------------------------------
  // insert(msg) with OnConflictStrategy.REPLACE on an autogenerated primary key
  // ---------------------------------------------------------------------------

  /**
   * The id the new row receives: Room binds an `id` of 0 as NULL, so SQLite
   * generates one past the largest id ever used; any other id is kept.
   */
  function AssignedId(t: Table, msg: MessageEntity): (r: int)
    requires Consistent(t)
    ensures r != 0
    ensures msg.id == 0 ==> forall x :: x in t.rows ==> x.id < r
  {
    if msg.id == 0 then t.lastId + 1 else msg.id
  }

  /** The row as stored: the entity with its assigned id. */
  function Stored(t: Table, msg: MessageEntity): MessageEntity
    requires Consistent(t)
  {
    msg.(id := AssignedId(t, msg))
  }

  /** Number of rows that clash with the new row on the primary key or on `supabase_id`. */
  function Clashes(rows: seq<MessageEntity>, id: int, key: string): (r: nat)
    ensures r <= |rows|
    ensures r == 0 <==> forall x :: x in rows ==> x.id != id && x.supabaseId != key
  {
    if rows == [] then 0
    else (if rows[0].id == id || rows[0].supabaseId == key then 1 else 0) + Clashes(rows[1..], id, key)
  }

  /** REPLACE first deletes every row that would violate the primary key or the unique index. */
  function Purge(rows: seq<MessageEntity>, id: int, key: string): (r: seq<MessageEntity>)
    ensures forall x :: x in r <==> x in rows && x.id != id && x.supabaseId != key
    ensures |r| == |rows| - Clashes(rows, id, key)
  {
    if rows == [] then []
    else if rows[0].id == id || rows[0].supabaseId == key then Purge(rows[1..], id, key)
    else [rows[0]] + Purge(rows[1..], id, key)
  }

  /** Dropping rows keeps the others in id order and keeps their remote ids distinct. */
  lemma PurgeKeepsInvariant(rows: seq<MessageEntity>, id: int, key: string)
    requires IdsAscending(rows) && UniqueSupabaseIds(rows)
    ensures IdsAscending(Purge(rows, id, key)) && UniqueSupabaseIds(Purge(rows, id, key))
  {
    PurgeKeepsOrder(rows, id, key);
    PurgeKeepsKeysUnique(rows, id, key);
  }

  lemma {:induction false} PurgeKeepsOrder(rows: seq<MessageEntity>, id: int, key: string)
    requires IdsAscending(rows)
    ensures IdsAscending(Purge(rows, id, key))
  {
    if rows != [] {
      var rest := rows[1..];
      PurgeKeepsOrder(rest, id, key);
      if rows[0].id != id && rows[0].supabaseId != key {
        var kept := Purge(rest, id, key);
        assert Purge(rows, id, key) == [rows[0]] + kept;
        forall j | 0 <= j < |kept| ensures rows[0].id < kept[j].id {
          assert kept[j] in kept;
          var k :| 0 <= k < |rest| && rest[k] == kept[j];
          assert rows[k + 1] == kept[j];
        }
      }
    }
  }

  lemma {:induction false} PurgeKeepsKeysUnique(rows: seq<MessageEntity>, id: int, key: string)
    requires UniqueSupabaseIds(rows)
    ensures UniqueSupabaseIds(Purge(rows, id, key))
  {
    if rows != [] {
      var rest := rows[1..];
      PurgeKeepsKeysUnique(rest, id, key);
      if rows[0].id != id && rows[0].supabaseId != key {
        var kept := Purge(rest, id, key);
        assert Purge(rows, id, key) == [rows[0]] + kept;
        forall j | 0 <= j < |kept| ensures rows[0].supabaseId != kept[j].supabaseId {
          assert kept[j] in kept;
          var k :| 0 <= k < |rest| && rest[k] == kept[j];
          assert rows[k + 1] == kept[j];
        }
      }
    }
  }

  /** Puts a row with a fresh id at its place in id order. */
  function Place(rows: seq<MessageEntity>, row: MessageEntity): (r: seq<MessageEntity>)
    requires IdsAscending(rows)
    requires forall x :: x in rows ==> x.id != row.id
    ensures IdsAscending(r)
    ensures |r| == |rows| + 1
    ensures forall x :: x in r <==> x in rows || x == row
  {
    if rows == [] || row.id < rows[0].id then [row] + rows
    else
      var placed := Place(rows[1..], row);
      assert forall j :: 0 <= j < |placed| ==> rows[0].id < placed[j].id by {
        forall j | 0 <= j < |placed| ensures rows[0].id < placed[j].id {
          assert placed[j] in placed;
          if placed[j] != row {
            var k :| 0 <= k < |rows[1..]| && rows[1..][k] == placed[j];
            assert rows[k + 1] == placed[j];
          }
        }
      }
      [rows[0]] + placed
  }

  lemma {:induction false} PlaceKeepsKeysUnique(rows: seq<MessageEntity>, row: MessageEntity)
    requires IdsAscending(rows) && UniqueSupabaseIds(rows)
    requires forall x :: x in rows ==> x.id != row.id && x.supabaseId != row.supabaseId
    ensures UniqueSupabaseIds(Place(rows, row))
  {
    if rows != [] && row.id >= rows[0].id {
      var rest := rows[1..];
      PlaceKeepsKeysUnique(rest, row);
      var placed := Place(rest, row);
      forall j | 0 <= j < |placed| ensures rows[0].supabaseId != placed[j].supabaseId {
        assert placed[j] in placed;
        if placed[j] != row {
          var k :| 0 <= k < |rest| && rest[k] == placed[j];
          assert rows[k + 1] == placed[j];
        }
      }
    }
  }

  /** A row whose id exceeds every present id goes to the end. */
  lemma {:induction false} PlaceHighestAtEnd(rows: seq<MessageEntity>, row: MessageEntity)
    requires IdsAscending(rows)
    requires forall x :: x in rows ==> x.id < row.id
    ensures Place(rows, row) == rows + [row]
  {
    if rows != [] {
      PlaceHighestAtEnd(rows[1..], row);
    }
  }

  /** `insert(msg)`: delete the clashing rows, add the new one, advance the AUTOINCREMENT mark. */
  function InsertReplace(t: Table, msg: MessageEntity): (r: Table)
    requires Consistent(t)
    ensures Consistent(r)
    ensures Stored(t, msg) in r.rows
    ensures forall x :: x in r.rows <==>
      x == Stored(t, msg) || (x in t.rows && x.id != AssignedId(t, msg) && x.supabaseId != msg.supabaseId)
    ensures r.lastId >= t.lastId && r.lastId >= AssignedId(t, msg)
  {
    var id := AssignedId(t, msg);
    var row := msg.(id := id);
    var kept := Purge(t.rows, id, msg.supabaseId);
    PurgeKeepsInvariant(t.rows, id, msg.supabaseId);
    PlaceKeepsKeysUnique(kept, row);
    var placed := Place(kept, row);
    var last := if id > t.lastId then id else t.lastId;
    assert WithinCounter(placed, last) by {
      forall i | 0 <= i < |placed| ensures placed[i].id != 0 && placed[i].id <= last {
        assert placed[i] in placed;
        if placed[i] != row {
          assert placed[i] in t.rows;
          var k :| 0 <= k < |t.rows| && t.rows[k] == placed[i];
        }
      }
    }
    Table(placed, last)
  }

  /** Rows carrying a given remote id, in table order. */
  function RowsWithKey(rows: seq<MessageEntity>, key: string): seq<MessageEntity> {
    if rows == [] then []
    else (if rows[0].supabaseId == key then [rows[0]] else []) + RowsWithKey(rows[1..], key)
  }

  lemma {:induction false} RowsWithKeyUnique(rows: seq<MessageEntity>, x: MessageEntity)
    requires UniqueSupabaseIds(rows) && x in rows
    ensures RowsWithKey(rows, x.supabaseId) == [x]
  {
    if rows[0] == x {
      NoRowsWithKey(rows[1..], x.supabaseId);
    } else {
      RowsWithKeyUnique(rows[1..], x);
    }
  }

  lemma {:induction false} NoRowsWithKey(rows: seq<MessageEntity>, key: string)
    requires forall x :: x in rows ==> x.supabaseId != key
    ensures RowsWithKey(rows, key) == []
  {
    if rows != [] {
      NoRowsWithKey(rows[1..], key);
    }
  }

  /** With unique ids and unique keys, at most one row clashes on each. */
  lemma {:induction false} ClashesAtMostTwo(rows: seq<MessageEntity>, id: int, key: string)
    requires IdsAscending(rows) && UniqueSupabaseIds(rows)
    ensures Clashes(rows, id, key) <= 2
  {
    if rows != [] {
      var rest := rows[1..];
      if rows[0].id == id || rows[0].supabaseId == key {
        assert forall x :: x in rest ==> x.id != rows[0].id && x.supabaseId != rows[0].supabaseId by {
          forall x | x in rest ensures x.id != rows[0].id && x.supabaseId != rows[0].supabaseId {
            var j :| 0 <= j < |rest| && rest[j] == x;
            assert rows[j + 1] == x;
          }
        }
        if rows[0].id == id && rows[0].supabaseId != key {
          ClashesNoId(rest, id, key);
        } else if rows[0].supabaseId == key && rows[0].id != id {
          ClashesNoKey(rest, id, key);
        } else {
          ClashesNone(rest, id, key);
        }
      } else {
        ClashesAtMostTwo(rest, id, key);
      }
    }
  }

  /** A fresh id and a stored remote id: exactly the one row holding that remote id clashes. */
  lemma {:induction false} ClashesExistingKey(rows: seq<MessageEntity>, id: int, key: string)
    requires UniqueSupabaseIds(rows) && key in KeysOf(rows)
    requires forall x :: x in rows ==> x.id != id
    ensures Clashes(rows, id, key) == 1
  {
    var rest := rows[1..];
    if rows[0].supabaseId == key {
      assert forall x :: x in rest ==> x.id != id && x.supabaseId != key by {
        forall x | x in rest ensures x.id != id && x.supabaseId != key {
          var j :| 0 <= j < |rest| && rest[j] == x;
          assert rows[j + 1] == x;
        }
      }
      ClashesNone(rest, id, key);
    } else {
      var x :| x in rows && x.supabaseId == key;
      assert x in rest;
      ClashesExistingKey(rest, id, key);
    }
  }

  lemma {:induction false} ClashesNoId(rows: seq<MessageEntity>, id: int, key: string)
    requires UniqueSupabaseIds(rows)
    requires forall x :: x in rows ==> x.id != id
    ensures Clashes(rows, id, key) <= 1
  {
    if rows != [] {
      ClashesNoId(rows[1..], id, key);
      if rows[0].supabaseId == key {
        assert forall x :: x in rows[1..] ==> x.supabaseId != key by {
          forall x | x in rows[1..] ensures x.supabaseId != key {
            var j :| 0 <= j < |rows[1..]| && rows[1..][j] == x;
            assert rows[j + 1] == x;
          }
        }
        ClashesNone(rows[1..], id, key);
      }
    }
  }

  lemma {:induction false} ClashesNoKey(rows: seq<MessageEntity>, id: int, key: string)
    requires IdsAscending(rows)
    requires forall x :: x in rows ==> x.supabaseId != key
    ensures Clashes(rows, id, key) <= 1
  {
    if rows != [] {
      ClashesNoKey(rows[1..], id, key);
      if rows[0].id == id {
        assert forall x :: x in rows[1..] ==> x.id != id by {
          forall x | x in rows[1..] ensures x.id != id {
            var j :| 0 <= j < |rows[1..]| && rows[1..][j] == x;
            assert rows[j + 1] == x;
          }
        }
        ClashesNone(rows[1..], id, key);
      }
    }
  }

  lemma {:induction false} ClashesNone(rows: seq<MessageEntity>, id: int, key: string)
    requires forall x :: x in rows ==> x.id != id && x.supabaseId != key
    ensures Clashes(rows, id, key) == 0
  {
    if rows != [] {
      ClashesNone(rows[1..], id, key);
    }
  }

  /** An autogenerated id exceeds every id the table has ever held, and the new row becomes the last (highest) one. */
  lemma AutoIdIsFreshAndHighest(t: Table, msg: MessageEntity)
    requires Consistent(t) && msg.id == 0
    ensures AssignedId(t, msg) == t.lastId + 1
    ensures InsertReplace(t, msg).lastId == AssignedId(t, msg)
    ensures forall x :: x in t.rows ==> x.id < AssignedId(t, msg)
    ensures var r := InsertReplace(t, msg).rows; r[|r| - 1] == Stored(t, msg)
  {
    var kept := Purge(t.rows, AssignedId(t, msg), msg.supabaseId);
    PurgeKeepsOrder(t.rows, AssignedId(t, msg), msg.supabaseId);
    PlaceHighestAtEnd(kept, Stored(t, msg));
  }

  /** Inserting a new remote id (with a generated or unused local id) adds exactly one row and keeps all others. */
  lemma InsertNewKey(t: Table, msg: MessageEntity)
    requires Consistent(t)
    requires msg.supabaseId !in KeysOf(t.rows)
    requires msg.id == 0 || forall x :: x in t.rows ==> x.id != msg.id
    ensures var r := InsertReplace(t, msg);
      |r.rows| == |t.rows| + 1 &&
      forall x :: x in r.rows <==> x in t.rows || x == Stored(t, msg)
  {
    var id := AssignedId(t, msg);
    assert forall x :: x in t.rows ==> x.id != id && x.supabaseId != msg.supabaseId;
    ClashesNone(t.rows, id, msg.supabaseId);
  }

  /**
   * REPLACE: inserting an existing remote id leaves the row count unchanged and exactly one row
   * with that remote id, carrying the new entity's fields; rows with other remote ids are untouched.
   */
  lemma InsertExistingKey(t: Table, msg: MessageEntity)
    requires Consistent(t)
    requires msg.supabaseId in KeysOf(t.rows)
    requires msg.id == 0
    ensures var r := InsertReplace(t, msg);
      |r.rows| == |t.rows| &&
      RowsWithKey(r.rows, msg.supabaseId) == [Stored(t, msg)] &&
      forall x: MessageEntity :: x.supabaseId != msg.supabaseId ==> (x in r.rows <==> x in t.rows)
  {
    var id := AssignedId(t, msg);
    assert forall x :: x in t.rows ==> x.id != id;
    ClashesExistingKey(t.rows, id, msg.supabaseId);
    RowsWithKeyUnique(InsertReplace(t, msg).rows, Stored(t, msg));
  }

  /**
   * After an insert the row count changes by at most one in each direction, and an insert
   * with a generated id never shrinks the table. (An explicit id that hits one row's primary key
   * and another row's remote id removes both: see ExplicitIdCanShrinkTable.)
   */
  lemma InsertRowCount(t: Table, msg: MessageEntity)
    requires Consistent(t)
    ensures var n := |InsertReplace(t, msg).rows|;
      |t.rows| - 1 <= n <= |t.rows| + 1 && (msg.id == 0 ==> n == |t.rows| || n == |t.rows| + 1)
  {
    var id := AssignedId(t, msg);
    ClashesAtMostTwo(t.rows, id, msg.supabaseId);
    if msg.id == 0 {
      ClashesNoId(t.rows, id, msg.supabaseId);
    }
  }

  /** A generated id never collides, so the set of stored remote ids just gains the new one. */
  lemma AutoInsertKeys(t: Table, msg: MessageEntity)
    requires Consistent(t) && msg.id == 0
    ensures KeysOf(InsertReplace(t, msg).rows) == KeysOf(t.rows) + {msg.supabaseId}
  {
    var r := InsertReplace(t, msg);
    forall k | k in KeysOf(t.rows) + {msg.supabaseId} ensures k in KeysOf(r.rows) {
      if k == msg.supabaseId {
        assert Stored(t, msg) in r.rows;
      } else {
        var x :| x in t.rows && x.supabaseId == k;
        assert x in r.rows;
      }
    }
  }

  /** Two rows, then an explicit id that clashes with both: the table loses a row. */
  lemma ExplicitIdCanShrinkTable()
    ensures var t := Table([MessageEntity(1, "a", "", "", "", "", ""), MessageEntity(2, "b", "", "", "", "", "")], 2);
      Consistent(t) && |InsertReplace(t, MessageEntity(1, "b", "", "", "", "", "")).rows| == 1
  {
    var t := Table([MessageEntity(1, "a", "", "", "", "", ""), MessageEntity(2, "b", "", "", "", "", "")], 2);
    var msg := MessageEntity(1, "b", "", "", "", "", "");
    assert Clashes(t.rows, 1, "b") == 2;
  }

  // ---------------------------------------------------------------------------
  // Queries: getAllMessages and searchMessages (one-shot reads of the current rows)
  // ---------------------------------------------------------------------------

  predicate IdsDescending(rows: seq<MessageEntity>) {
    forall i, j :: 0 <= i < j < |rows| ==> rows[i].id > rows[j].id
  }

  function Reversed(rows: seq<MessageEntity>): (r: seq<MessageEntity>)
    ensures |r| == |rows|
    ensures forall i :: 0 <= i < |rows| ==> r[i] == rows[|rows| - 1 - i]
  {
    if rows == [] then [] else Reversed(rows[1..]) + [rows[0]]
  }

  /** `SELECT * FROM vault_table ORDER BY id DESC`: every row, newest id first. */
  function GetAllMessages(t: Table): (r: seq<MessageEntity>)
    requires IdsAscending(t.rows)
    ensures IdsDescending(r)
    ensures |r| == |t.rows|
    ensures forall x :: x in r <==> x in t.rows
  {
    var r := Reversed(t.rows);
    assert forall x :: x in t.rows ==> x in r by {
      forall x | x in t.rows ensures x in r {
        var j :| 0 <= j < |t.rows| && t.rows[j] == x;
        assert r[|t.rows| - 1 - j] == x;
      }
    }
    r
  }

  /** `a` is `b` with some elements left out, order kept. */
  predicate IsSubsequence(a: seq<MessageEntity>, b: seq<MessageEntity>)
    decreases |b|
  {
    if a == [] then true
    else if b == [] then false
    else (a[0] == b[0] && IsSubsequence(a[1..], b[1..])) || IsSubsequence(a, b[1..])
  }

  /** The WHERE clause of searchMessages: the query occurs in the app name, the payload or the header. */
  predicate Hit(x: MessageEntity, q: string) {
    Like(x.sourceApp, Pattern(q)) || Like(x.payload, Pattern(q)) || Like(x.header, Pattern(q))
  }

  function KeepHits(rows: seq<MessageEntity>, q: string): (r: seq<MessageEntity>)
    ensures forall x :: x in r <==> x in rows && Hit(x, q)
    ensures IsSubsequence(r, rows)
  {
    if rows == [] then []
    else if Hit(rows[0], q) then [rows[0]] + KeepHits(rows[1..], q)
    else KeepHits(rows[1..], q)
  }

  lemma {:induction false} SubsequenceMembers(a: seq<MessageEntity>, b: seq<MessageEntity>)
    requires IsSubsequence(a, b)
    ensures forall x :: x in a ==> x in b
    decreases |b|
  {
    if a != [] {
      if a[0] == b[0] && IsSubsequence(a[1..], b[1..]) {
        SubsequenceMembers(a[1..], b[1..]);
        assert forall x :: x in a ==> x == a[0] || x in a[1..];
      } else {
        SubsequenceMembers(a, b[1..]);
      }
    }
  }

  /** Leaving rows out of a list ordered by descending id keeps it ordered. */
  lemma {:induction false} SubsequenceKeepsDescending(a: seq<MessageEntity>, b: seq<MessageEntity>)
    requires IsSubsequence(a, b) && IdsDescending(b)
    ensures IdsDescending(a)
    decreases |b|
  {
    if a != [] {
      assert IdsDescending(b[1..]) by {
        forall i, j | 0 <= i < j < |b[1..]| ensures b[1..][i].id > b[1..][j].id {
          assert b[1..][i] == b[i + 1] && b[1..][j] == b[j + 1];
        }
      }
      if a[0] == b[0] && IsSubsequence(a[1..], b[1..]) {
        var rest := a[1..];
        SubsequenceKeepsDescending(rest, b[1..]);
        SubsequenceMembers(rest, b[1..]);
        forall j | 0 < j < |a| ensures a[0].id > a[j].id {
          assert a[j] == rest[j - 1] && rest[j - 1] in rest;
          var k :| 0 <= k < |b[1..]| && b[1..][k] == a[j];
          assert b[k + 1] == a[j];
        }
        forall i, j | 0 <= i < j < |a| ensures a[i].id > a[j].id {
          if i > 0 {
            assert a[i] == rest[i - 1] && a[j] == rest[j - 1];
          }
        }
      } else {
        SubsequenceKeepsDescending(a, b[1..]);
      }
    }
  }

  /**
   * `SELECT * FROM vault_table WHERE source_app LIKE '%'||q||'%' OR payload LIKE … OR header LIKE …
   * ORDER BY id DESC`: exactly the matching rows, newest first, in the order getAllMessages lists them.
   */
  function SearchMessages(t: Table, q: string): (r: seq<MessageEntity>)
    requires IdsAscending(t.rows)
    ensures IsSubsequence(r, GetAllMessages(t))
    ensures IdsDescending(r)
    ensures forall x :: x in r <==> x in t.rows && Hit(x, q)
  {
    var all := GetAllMessages(t);
    SubsequenceKeepsDescending(KeepHits(all, q), all);
    KeepHits(all, q)
  }

  /** For a query without `%` or `_`, a row is found exactly when one of its three fields contains the query, ignoring ASCII case. */
  lemma SearchIsSubstringMatch(t: Table, q: string, x: MessageEntity)
    requires IdsAscending(t.rows) && HasNoWildcard(q)
    ensures x in SearchMessages(t, q) <==>
      x in t.rows && (ContainsFolded(x.sourceApp, q) || ContainsFolded(x.payload, q) || ContainsFolded(x.header, q))
  {
    PatternIsSubstringTest(x.sourceApp, q);
    PatternIsSubstringTest(x.payload, q);
    PatternIsSubstringTest(x.header, q);
  }

  /** The empty query matches every row, so searchMessages("") is getAllMessages. */
  lemma SearchEmptyIsAll(t: Table)
    requires IdsAscending(t.rows)
    ensures SearchMessages(t, "") == GetAllMessages(t)
  {
    var all := GetAllMessages(t);
    forall x | x in all ensures Hit(x, "") {
      EmptyPatternMatchesAll(x.sourceApp);
    }
    KeepAllHits(all, "");
  }

  lemma {:induction false} KeepAllHits(rows: seq<MessageEntity>, q: string)
    requires forall x :: x in rows ==> Hit(x, q)
    ensures KeepHits(rows, q) == rows
  {
    if rows != [] {
      KeepAllHits(rows[1..], q);
    }
  }

  // ---------------------------------------------------------------------------
  // The table object
  // ---------------------------------------------------------------------------

  /** `vault_table` behind the Room DAO: rows in primary-key order plus the AUTOINCREMENT mark. */
  class MessageDao {
    var rows: seq<MessageEntity>
    var lastId: int

    ghost predicate Valid()
      reads this
    {
      Consistent(Table(rows, lastId))
    }

    function Snapshot(): Table
      reads this
    {
      Table(rows, lastId)
    }

    /** A freshly created database: no rows, no id handed out yet. */
    constructor ()
      ensures Valid() && rows == [] && lastId == 0
    {
      rows := [];
      lastId := 0;
    }

    /** `insert(msg)` with REPLACE on conflict. */
    method Insert(msg: MessageEntity)
      requires Valid()
      modifies this
      ensures Valid()
      ensures Snapshot() == InsertReplace(old(Snapshot()), msg)
      ensures lastId >= old(lastId)
    {
      var t := InsertReplace(Snapshot(), msg);
      rows, lastId := t.rows, t.lastId;
    }

    /** `DELETE FROM vault_table`: every row goes; the AUTOINCREMENT mark stays, so ids are never reused. */
    method DeleteAll()
      requires Valid()
      modifies this
      ensures Valid()
      ensures rows == [] && lastId == old(lastId)
    {
      rows := [];
    }
  }
}
