/**
  Synchronising the cleaned game records into the `games` table of the
  `video_games` database (src/update_database.py).

  Reading the CSV file and talking to the MySQL server are left out: the data
  frame is given as rows of cells, and the table as an in-memory map from the
  composite primary key (Pos, Game, Publisher) to the 19 other columns. The
  statement INSERT ... ON DUPLICATE KEY UPDATE is modelled by its effect on
  that map.
*/
module Sync {
  import opened Wrappers

  /** A non-missing value of the data frame: a number, or text such as a
      title or a date. */
  datatype Value = Number(x: real) | Text(s: string)

  /** A cell of the data frame read from the CSV file: NaN where the file had
      no value. */
  datatype CsvCell = NaN | Present(value: Value)

  /** A statement parameter; None is SQL NULL. */
  type Param = Option<Value>

  /** The number of columns the INSERT names, Pos to Update_Lag_Days. */
  const ColumnCount: nat := 22
  /** The leading columns that make up the primary key: Pos, Game, Publisher. */
  const KeyCount: nat := 3

  /** The composite primary key of the `games` table. */
  datatype Key = Key(pos: Value, game: Value, publisher: Value)

  /** The `games` table: the non-key columns of the row stored under each key. */
  type Table = map<Key, seq<Param>>

  /** Every stored row has all 19 non-key columns. */
  ghost predicate WellFormed(t: Table) {
    forall k | k in t :: |t[k]| == ColumnCount - KeyCount
  }

  /** Why the statement for a row is refused: the row does not supply one
      parameter per placeholder, or it would put NULL into a primary-key
      column. */
  datatype SqlError = ParameterCountMismatch | NullInPrimaryKey

  // ---------------------------------------------------------------------------
  // From data-frame rows to statement parameters
  // ---------------------------------------------------------------------------

  function NullIfNaN(c: CsvCell): Param {
    if c.NaN? then None else Some(c.value)
  }

  /** The parameters passed for a row once NaN has been replaced by None:
      every NaN cell becomes NULL and every other cell is passed as it is. */
  function Params(row: seq<CsvCell>): (p: seq<Param>)
    ensures |p| == |row|
    ensures forall i | 0 <= i < |row| :: p[i].None? <==> row[i].NaN?
    ensures forall i | 0 <= i < |row| :: row[i].Present? ==> p[i] == Some(row[i].value)
  {
    seq(|row|, i requires 0 <= i < |row| => NullIfNaN(row[i]))
  }

  /** The parameters of every row of the data frame, in order. */
  function ParamRows(data: seq<seq<CsvCell>>): (rows: seq<seq<Param>>)
    ensures |rows| == |data|
    ensures forall i | 0 <= i < |data| :: rows[i] == Params(data[i])
  {
    seq(|data|, i requires 0 <= i < |data| => Params(data[i]))
  }

  // ---------------------------------------------------------------------------
  // One upsert
  // ---------------------------------------------------------------------------

  /** The error the statement raises for these parameters, if any. */
  function Rejection(p: seq<Param>): Option<SqlError> {
    if |p| != ColumnCount then Some(ParameterCountMismatch)
    else if p[0].None? || p[1].None? || p[2].None? then Some(NullInPrimaryKey)
    else None
  }

  predicate Accepted(p: seq<Param>) {
    Rejection(p).None?
  }

  function KeyOf(p: seq<Param>): Key
    requires Accepted(p)
  {
    Key(p[0].value, p[1].value, p[2].value)
  }

  /** The values the statement gives the non-key columns. */
  function NonKey(p: seq<Param>): (cols: seq<Param>)
    requires Accepted(p)
    ensures |cols| == ColumnCount - KeyCount
  {
    p[KeyCount..]
  }

  /** One INSERT ... ON DUPLICATE KEY UPDATE. A refused row leaves the table
      alone; an accepted one is stored under its key, and when the key is
      already present all 19 non-key columns are overwritten, NULLs
      included; no other row changes and no row goes away. */
  function Upsert(t: Table, p: seq<Param>): (r: Result<Table, SqlError>)
    ensures r.Err? <==> !Accepted(p)
    ensures r.Err? ==> Some(r.error) == Rejection(p)
    ensures r.Ok? ==>
      && r.value.Keys == t.Keys + {KeyOf(p)}
      && r.value[KeyOf(p)] == NonKey(p)
      && forall k | k in t && k != KeyOf(p) :: r.value[k] == t[k]
  {
    match Rejection(p)
    case Some(e) => Err(e)
    case None => Ok(t[KeyOf(p) := NonKey(p)])
  }

  // ---------------------------------------------------------------------------
  // The whole loop
  // ---------------------------------------------------------------------------

  ghost predicate AllAccepted(rows: seq<seq<Param>>) {
    forall i | 0 <= i < |rows| :: Accepted(rows[i])
  }

  /** The index of the first row the statement refuses, |rows| if none: the
      loop stops there. */
  function FirstRejected(rows: seq<seq<Param>>): (k: nat)
    ensures k <= |rows|
    ensures forall i | 0 <= i < k :: Accepted(rows[i])
    ensures k < |rows| ==> !Accepted(rows[k])
  {
    if rows == [] then 0
    else if !Accepted(rows[0]) then 0
    else 1 + FirstRejected(rows[1..])
  }

  /** The table after upserting the rows one after another. */
  function ApplyAll(t: Table, rows: seq<seq<Param>>): (r: Table)
    requires AllAccepted(rows)
    ensures WellFormed(t) ==> WellFormed(r)
    ensures t.Keys <= r.Keys
    ensures forall i | 0 <= i < |rows| :: KeyOf(rows[i]) in r
  {
    if rows == [] then t
    else
      var last := rows[|rows| - 1];
      ApplyAll(t, rows[..|rows| - 1])[KeyOf(last) := NonKey(last)]
  }

  /** The keys the rows carry. */
  function InputKeys(rows: seq<seq<Param>>): set<Key>
    requires AllAccepted(rows)
  {
    set i | 0 <= i < |rows| :: KeyOf(rows[i])
  }

  /** For each key in the rows, the non-key columns of its last row. */
  function LastWrites(rows: seq<seq<Param>>): map<Key, seq<Param>>
    requires AllAccepted(rows)
  {
    if rows == [] then map[]
    else
      var last := rows[|rows| - 1];
      LastWrites(rows[..|rows| - 1])[KeyOf(last) := NonKey(last)]
  }

  /** Upserting the rows amounts to laying their last writes over the table. */
  lemma {:induction false} ApplyAllIsOverlay(t: Table, rows: seq<seq<Param>>)
    requires AllAccepted(rows)
    ensures ApplyAll(t, rows) == t + LastWrites(rows)
  {
    if rows != [] {
      ApplyAllIsOverlay(t, rows[..|rows| - 1]);
    }
  }

  /** No later row carries the key of row i. */
  ghost predicate IsLastWithItsKey(rows: seq<seq<Param>>, i: nat)
    requires AllAccepted(rows) && i < |rows|
  {
    forall j | i < j < |rows| :: KeyOf(rows[j]) != KeyOf(rows[i])
  }

  /** The last writes have exactly one entry per key in the rows. */
  lemma {:induction false} LastWritesKeys(rows: seq<seq<Param>>)
    requires AllAccepted(rows)
    ensures LastWrites(rows).Keys == InputKeys(rows)
  {
    if rows != [] {
      var n := |rows| - 1;
      var init := rows[..n];
      LastWritesKeys(init);
      assert forall i | 0 <= i < n :: init[i] == rows[i];
      assert InputKeys(rows) == InputKeys(init) + {KeyOf(rows[n])} by {
        forall k | k in InputKeys(rows) ensures k in InputKeys(init) + {KeyOf(rows[n])} {
          var i :| 0 <= i < |rows| && KeyOf(rows[i]) == k;
          if i < n {
            assert KeyOf(init[i]) == k;
          }
        }
      }
    }
  }

  /** The entry of a key in the last writes is that of the last row with
      the key. */
  lemma {:induction false} LastWriteAt(rows: seq<seq<Param>>, i: nat)
    requires AllAccepted(rows) && i < |rows| && IsLastWithItsKey(rows, i)
    ensures KeyOf(rows[i]) in LastWrites(rows)
    ensures LastWrites(rows)[KeyOf(rows[i])] == NonKey(rows[i])
  {
    var n := |rows| - 1;
    if i < n {
      var init := rows[..n];
      assert init[i] == rows[i];
      assert IsLastWithItsKey(init, i) by {
        forall j | i < j < n ensures KeyOf(init[j]) != KeyOf(init[i]) {
          assert init[j] == rows[j];
        }
      }
      LastWriteAt(init, i);
      assert KeyOf(rows[n]) != KeyOf(rows[i]);
    }
  }

  /** After the loop the table holds exactly one row per distinct key among
      the rows it held before and the input rows: nothing is deleted and no
      key is stored twice. */
  lemma ApplyAllKeys(t: Table, rows: seq<seq<Param>>)
    requires AllAccepted(rows)
    ensures ApplyAll(t, rows).Keys == t.Keys + InputKeys(rows)
  {
    ApplyAllIsOverlay(t, rows);
    LastWritesKeys(rows);
  }

  /** Last writer wins: a key's stored non-key columns are those of the last
      input row with that key, whatever the table held before, absent
      values included. */
  lemma LastWriterWins(t: Table, rows: seq<seq<Param>>, i: nat)
    requires AllAccepted(rows)
    requires i < |rows|
    requires forall j | i < j < |rows| :: KeyOf(rows[j]) != KeyOf(rows[i])
    ensures ApplyAll(t, rows)[KeyOf(rows[i])] == NonKey(rows[i])
  {
    ApplyAllIsOverlay(t, rows);
    LastWriteAt(rows, i);
  }

  /** A stored row whose key no input row carries is left as it was. */
  lemma UntouchedRowsKept(t: Table, rows: seq<seq<Param>>, k: Key)
    requires AllAccepted(rows)
    requires k in t && k !in InputKeys(rows)
    ensures ApplyAll(t, rows)[k] == t[k]
  {
    ApplyAllIsOverlay(t, rows);
    LastWritesKeys(rows);
  }

  /** Running the loop a second time over the same rows changes nothing. */
  lemma ApplyAllIdempotent(t: Table, rows: seq<seq<Param>>)
    requires AllAccepted(rows)
    ensures ApplyAll(ApplyAll(t, rows), rows) == ApplyAll(t, rows)
  {
    ApplyAllIsOverlay(t, rows);
    ApplyAllIsOverlay(ApplyAll(t, rows), rows);
    var m := LastWrites(rows);
    assert (t + m) + m == t + m;
  }

  /** A later run overrides an earlier one on every key it supplies: the
      stored values for those keys do not depend on what was there before. */
  lemma LaterRunWins(t: Table, earlier: seq<seq<Param>>, later: seq<seq<Param>>, k: Key)
    requires AllAccepted(earlier) && AllAccepted(later)
    requires k in InputKeys(later)
    ensures ApplyAll(ApplyAll(t, earlier), later)[k] == ApplyAll(t, later)[k]
  {
    ApplyAllIsOverlay(ApplyAll(t, earlier), later);
    ApplyAllIsOverlay(t, later);
    LastWritesKeys(later);
  }

  // ---------------------------------------------------------------------------
  // The database connection
  // ---------------------------------------------------------------------------

  /** The `games` table seen through the one connection the script opens. */
  class GamesDatabase {
    /** The table as the connection sees it, work not yet committed included. */
    var table: Table
    /** The table as last committed: what survives if the run stops. */
    var committed: Table

    ghost predicate Valid()
      reads this
    {
      WellFormed(table) && WellFormed(committed)
    }

    /** Connecting and running CREATE TABLE IF NOT EXISTS: the rows of earlier
        runs are kept. */
    constructor (existing: Table)
      requires WellFormed(existing)
      ensures Valid()
      ensures table == existing && committed == existing
    {
      table := existing;
      committed := existing;
    }

    /** cursor.execute of the upsert statement for one row: a refused row
        raises its error and changes nothing. */
    method Execute(p: seq<Param>) returns (error: Option<SqlError>)
      requires Valid()
      modifies this`table
      ensures Valid()
      ensures error == Rejection(p)
      ensures error.Some? ==> table == old(table)
      ensures error.None? ==> table == Upsert(old(table), p).value
    {
      var r := Upsert(table, p);
      match r
      case Err(e) =>
        error := Some(e);
      case Ok(t) =>
        table := t;
        error := None;
    }

    /** db.commit(): the connection's view becomes durable. */
    method Commit()
      requires Valid()
      modifies this`committed
      ensures Valid()
      ensures committed == table
    {
      committed := table;
    }
  }

  /** The loop over the rows of the data frame: replace NaN by NULL, upsert,
      commit, row after row. The first refused row raises and ends the run:
      `applied` rows, those before it, are committed, and none after it is
      attempted. */
  method SyncRows(db: GamesDatabase, data: seq<seq<CsvCell>>) returns (applied: nat, error: Option<SqlError>)
    requires db.Valid() && db.table == db.committed
    modifies db
    ensures db.Valid() && db.table == db.committed
    ensures applied == FirstRejected(ParamRows(data))
    ensures applied < |data| ==> error == Rejection(Params(data[applied])) && error.Some?
    ensures applied == |data| ==> error.None?
    ensures db.committed == ApplyAll(old(db.committed), ParamRows(data)[..applied])
  {
    ghost var rows := ParamRows(data);
    applied := 0;
    error := None;
    while applied < |data|
      invariant applied <= |data|
      invariant db.Valid() && db.table == db.committed
      invariant forall i | 0 <= i < applied :: Accepted(rows[i])
      invariant db.committed == ApplyAll(old(db.committed), rows[..applied])
      invariant error.None?
    {
      var p := Params(data[applied]);
      error := db.Execute(p);
      if error.Some? {
        break;
      }
      db.Commit();
      ApplyAllStep(old(db.committed), rows, applied);
      applied := applied + 1;
    }
    FirstRejectedIs(rows, applied);
  }

  /** Upserting one more accepted row extends the run by that row. */
  lemma ApplyAllStep(t: Table, rows: seq<seq<Param>>, k: nat)
    requires k < |rows|
    requires forall i | 0 <= i <= k :: Accepted(rows[i])
    ensures ApplyAll(t, rows[..k + 1]) == Upsert(ApplyAll(t, rows[..k]), rows[k]).value
  {
    assert rows[..k + 1][..k] == rows[..k];
  }

  /** An index is the first refused row when every row before it is accepted
      and it is refused or past the end. */
  lemma {:induction false} FirstRejectedIs(rows: seq<seq<Param>>, k: nat)
    requires k <= |rows|
    requires forall i | 0 <= i < k :: Accepted(rows[i])
    requires k < |rows| ==> !Accepted(rows[k])
    ensures FirstRejected(rows) == k
  {
    if rows != [] && k > 0 {
      FirstRejectedIs(rows[1..], k - 1);
    }
  }

  /** Running the whole loop twice over the same data frame leaves the same
      committed table as running it once: the second run stops at the same
      row and rewrites the same values. */
  lemma SyncTwiceSameAsOnce(t: Table, data: seq<seq<CsvCell>>)
    ensures var rows := ParamRows(data);
      var k := FirstRejected(rows);
      ApplyAll(ApplyAll(t, rows[..k]), rows[..k]) == ApplyAll(t, rows[..k])
  {
    var rows := ParamRows(data);
    ApplyAllIdempotent(t, rows[..FirstRejected(rows)]);
  }
}
