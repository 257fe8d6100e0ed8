/** DatabaseHelper: the schema of the two tables, their creation, the UNIQUE
    constraint that an INSERT into dicom_metadata must respect, and the purge
    of rows older than one day. */
module DatabaseHelper {
  import opened Wrappers
  import opened Metadata
  import opened Sequences

  /** `datetime('now', '-1 day')`, in seconds. */
  const OneDay: int := 86400

  /** A row survives the purge when it was received no earlier than a day ago. */
  predicate Recent(row: Row, now: int) {
    row.receivedAt >= now - OneDay
  }

  /** `DELETE FROM dicom_metadata WHERE received_at < datetime('now', '-1 day')`:
      exactly the old rows go, every other row stays, in the same order. */
  function Purged(rows: seq<Row>, now: int): (kept: seq<Row>)
    ensures forall r {:trigger multiset(kept)[r]} :: multiset(kept)[r] == if Recent(r, now) then multiset(rows)[r] else 0
    ensures forall i :: 0 <= i < |kept| ==> Recent(kept[i], now)
    ensures forall r :: r in kept ==> r in rows
    ensures |kept| <= |rows|
  {
    if rows == [] then []
    else
      assert rows == [rows[0]] + rows[1..];
      if Recent(rows[0], now) then [rows[0]] + Purged(rows[1..], now) else Purged(rows[1..], now)
  }

  /** The purge keeps the surviving rows in their table order. */
  lemma {:induction false} PurgeKeepsOrder(rows: seq<Row>, now: int)
    ensures IsSubsequence(Purged(rows, now), rows)
  {
    if rows != [] {
      PurgeKeepsOrder(rows[1..], now);
      assert rows == [rows[0]] + rows[1..];
      if Recent(rows[0], now) {
        SubsequenceConsBoth(rows[0], Purged(rows[1..], now), rows[1..]);
      } else {
        SubsequenceConsRight(rows[0], Purged(rows[1..], now), rows[1..]);
      }
    }
  }

  lemma PurgePreservesInvariant(rows: seq<Row>, now: int)
    requires TableInvariant(rows)
    ensures TableInvariant(Purged(rows, now))
  {
    PurgeKeepsDistinctPatients(rows, now);
    PurgeKeepsDistinctStudies(rows, now);
    var kept := Purged(rows, now);
    forall i | 0 <= i < |kept|
      ensures kept[i].imageCount >= 1
    {
      assert kept[i] in rows;
    }
  }

  lemma {:induction false} PurgeKeepsDistinctPatients(rows: seq<Row>, now: int)
    requires DistinctPatients(rows)
    ensures DistinctPatients(Purged(rows, now))
  {
    if rows != [] {
      PurgeKeepsDistinctPatients(rows[1..], now);
      var rest := Purged(rows[1..], now);
      if Recent(rows[0], now) {
        var kept := [rows[0]] + rest;
        forall j | 1 <= j < |kept|
          ensures kept[0].patientId != kept[j].patientId
        {
          assert kept[j] == rest[j - 1];
          assert kept[j] in rows[1..];
        }
      }
    }
  }

  lemma {:induction false} PurgeKeepsDistinctStudies(rows: seq<Row>, now: int)
    requires DistinctStudies(rows)
    ensures DistinctStudies(Purged(rows, now))
  {
    if rows != [] {
      PurgeKeepsDistinctStudies(rows[1..], now);
      var rest := Purged(rows[1..], now);
      if Recent(rows[0], now) {
        var kept := [rows[0]] + rest;
        forall j | 1 <= j < |kept|
          ensures kept[0].studyInstanceUid != kept[j].studyInstanceUid
        {
          assert kept[j] == rest[j - 1];
          assert kept[j] in rows[1..];
        }
      }
    }
  }

  lemma {:induction false} PurgePreservesNoFailed(rows: seq<Row>, now: int)
    requires NoFailedRows(rows)
    ensures NoFailedRows(Purged(rows, now))
  {
    forall i | 0 <= i < |Purged(rows, now)|
      ensures Purged(rows, now)[i].status != Failed
    {
      assert Purged(rows, now)[i] in rows;
    }
  }

  /** INSERT INTO dicom_metadata: fails (SQLite raises a constraint error) when
      the row's study_instance_uid is already present; otherwise appends it. */
  function InsertIntoMetadata(rows: seq<Row>, row: Row): (r: Option<seq<Row>>)
    ensures r.None? <==> exists i :: 0 <= i < |rows| && rows[i].studyInstanceUid == row.studyInstanceUid
    ensures r.Some? ==> r.value == rows + [row]
  {
    if exists i :: 0 <= i < |rows| && rows[i].studyInstanceUid == row.studyInstanceUid then None
    else Some(rows + [row])
  }

  /** The database file: which tables exist and what they hold. */
  class Database {
    var schema: set<TableName>
    var metadata: seq<Row>
    var auth: map<int, AuthRow>

    ghost predicate Valid()
      reads this
    {
      && (DicomMetadata !in schema ==> metadata == [])
      && (Auth !in schema ==> auth == map[])
      && TableInvariant(metadata)
    }

    /** Both tables exist (InitializeDatabase has run). */
    predicate Ready()
      reads this
    {
      Auth in schema && DicomMetadata in schema
    }

    /** A database file with no tables yet. */
    constructor ()
      ensures Valid() && schema == {} && metadata == [] && auth == map[]
    {
      schema, metadata, auth := {}, [], map[];
    }

    /** CREATE TABLE IF NOT EXISTS for both tables: creates what is missing and
        keeps every existing row, so a second call changes nothing. */
    method InitializeDatabase()
      requires Valid()
      modifies this
      ensures Valid() && Ready()
      ensures schema == old(schema) + {Auth, DicomMetadata}
      ensures metadata == old(metadata) && auth == old(auth)
    {
      if Auth !in schema {
        schema := schema + {Auth};
      }
      if DicomMetadata !in schema {
        schema := schema + {DicomMetadata};
      }
    }

    /** Deletes the rows older than one day. Any error (the database cannot be
        opened, the table is missing) is caught and leaves the table as it was. */
    method DeleteOldRecords(now: int, reachable: bool)
      requires Valid()
      modifies this`metadata
      ensures Valid()
      ensures metadata == if reachable && DicomMetadata in schema then Purged(old(metadata), now) else old(metadata)
    {
      if reachable && DicomMetadata in schema {
        PurgePreservesInvariant(metadata, now);
        metadata := Purged(metadata, now);
      }
    }
  }

  /** Calling InitializeDatabase on a database it already initialised leaves
      every table and every row as it is. */
  method InitializeTwice(db: Database)
    requires db.Valid()
    modifies db
    ensures db.Ready() && db.metadata == old(db.metadata) && db.auth == old(db.auth)
  {
    db.InitializeDatabase();
    var schema, metadata, auth := db.schema, db.metadata, db.auth;
    db.InitializeDatabase();
    assert db.schema == schema && db.metadata == metadata && db.auth == auth;
  }
}
