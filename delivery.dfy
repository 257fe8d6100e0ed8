/** Delivery: what the receiver, the purge and the reports window do together
    over a run of events, and what that means for the retry button. */
module Delivery {
  import opened Wrappers
  import opened Dicom
  import opened Metadata
  import opened DatabaseHelper
  import opened DicomReceiver
  import ViewReports
  import RetryVisibility

  /** Something that changes the disk or the table outside the reports
      window: a C-STORE, or the purge the window runs when it opens. */
  datatype Event =
    | Store(file: DicomFile, now: int, oracles: Oracles)
    | Purge(now: int, reachable: bool)

  /** The disk and the table after a run of events, first event first. */
  function Run(files: map<string, DicomFile>, rows: seq<Row>, auth: map<int, AuthRow>, events: seq<Event>)
    : (map<string, DicomFile>, seq<Row>)
    decreases |events|
  {
    if events == [] then (files, rows)
    else
      match events[0]
      case Store(f, now, o) =>
        var e := Stored(files, rows, auth, f, now, o);
        Run(e.files, e.rows, auth, events[1..])
      case Purge(now, reachable) =>
        Run(files, if reachable then Purged(rows, now) else rows, auth, events[1..])
  }

  /** The purge keeps only rows it was given. */
  lemma PurgeKeepsCompressedPaths(rows: seq<Row>, now: int)
    requires AllCompressedPaths(rows)
    ensures AllCompressedPaths(Purged(rows, now))
  {
    forall i | 0 <= i < |Purged(rows, now)|
      ensures IsCompressedPath(Purged(rows, now)[i].filePath)
    {
      assert Purged(rows, now)[i] in rows;
    }
  }

  /** Any run of C-STOREs and purges keeps the table invariant and never
      produces a "Failed" row. */
  lemma {:induction false} RunPreservesInvariants(files: map<string, DicomFile>, rows: seq<Row>, auth: map<int, AuthRow>, events: seq<Event>)
    requires TableInvariant(rows) && AllCompressedPaths(rows) && NoFailedRows(rows)
    ensures var after := Run(files, rows, auth, events).1;
      TableInvariant(after) && AllCompressedPaths(after) && NoFailedRows(after)
    decreases |events|
  {
    if events != [] {
      match events[0]
      case Store(f, now, o) =>
        StorePreservesInvariants(files, rows, auth, f, now, o);
        var e := Stored(files, rows, auth, f, now, o);
        RunPreservesInvariants(e.files, e.rows, auth, events[1..]);
      case Purge(now, reachable) =>
        PurgePreservesInvariant(rows, now);
        PurgePreservesNoFailed(rows, now);
        PurgeKeepsCompressedPaths(rows, now);
        RunPreservesInvariants(files, if reachable then Purged(rows, now) else rows, auth, events[1..]);
    }
  }

  /** Starting from an empty table, however the conversions, compressions and
      uploads turn out, no report LoadData shows has a visible retry button:
      the pipeline never writes "Failed" to a row it created, so RetryFile is
      never offered. */
  lemma RetryNeverOffered(files: map<string, DicomFile>, auth: map<int, AuthRow>, events: seq<Event>)
    ensures var reports := ViewReports.LoadedReports(Run(files, [], auth, events).1);
      forall i :: 0 <= i < |reports| ==> RetryVisibility.Convert(Some(reports[i].status)) == RetryVisibility.Collapsed
  {
    var rows := Run(files, [], auth, events).1;
    RunPreservesInvariants(files, [], auth, events);
    var reports := ViewReports.LoadedReports(rows);
    forall i | 0 <= i < |reports|
      ensures RetryVisibility.Convert(Some(reports[i].status)) == RetryVisibility.Collapsed
    {
      ViewReports.EveryReportIsARow(rows, i);
    }
  }

  /** The first delivered image of a patient in an empty table: one new row,
      "Completed", image_count 1. */
  lemma FirstDeliveredImage(files: map<string, DicomFile>, auth: map<int, AuthRow>, f: DicomFile, t: int, o: Oracles)
    requires Delivered(f.mediaStorageSopInstanceUid, o)
    ensures Stored(files, [], auth, f, t, o).rows == [NewRow(f, CompressedPath(f.mediaStorageSopInstanceUid), Completed, t)]
  {
    DeliveredStoreRows(files, [], auth, f, t, o);
  }

  /** A further delivered image of the patient of the only row: the row is
      overwritten from the file and counts one more image. */
  lemma FurtherDeliveredImage(files: map<string, DicomFile>, row: Row, auth: map<int, AuthRow>, f: DicomFile, t: int, o: Oracles)
    requires Delivered(f.mediaStorageSopInstanceUid, o)
    requires row.patientId == GetTagValue(f, PatientID) && row.imageCount >= 1
    ensures Stored(files, [row], auth, f, t, o).rows == [Overwritten(row, f, CompressedPath(f.mediaStorageSopInstanceUid), Completed, t)]
  {
    var uid := f.mediaStorageSopInstanceUid;
    UpsertOverwritesExisting([row], f, CompressedPath(uid), InProgress, t, 0);
    var completed := [Overwritten(row, f, CompressedPath(uid), Completed, t)];
    assert SetStatusByPath(Upserted([row], f, CompressedPath(uid), InProgress, t).0, CompressedPath(uid), Completed) == completed;
    // whichever deletes throw, the catch block's update by the converted path
    // finds no row
    var saved := files[RawPath(uid) := f];
    var normalized := Normalized(saved, RawPath(uid), ConvertedPath(uid), o.codec, o.canWrite).value;
    var compressed := Compressed(normalized, ConvertedPath(uid), CompressedPath(uid), o.codec, o.canWrite).value;
    FailureCleanupKeepsRows(compressed, completed, uid, o.canDelete);
    FailureCleanupKeepsRows(compressed - {RawPath(uid)}, completed, uid, o.canDelete);
    FailureCleanupKeepsRows(compressed - {RawPath(uid)} - {ConvertedPath(uid)}, completed, uid, o.canDelete);
  }

  /** Two delivered images of one patient: one row, image_count 2 (one per
      arrival; "Completed" adds nothing), status "Completed", file_path the
      second image's compressed path, the first image's study UID kept, and no
      file of either image left on disk. */
  lemma TwoDeliveredImagesOfOnePatient(files: map<string, DicomFile>, auth: map<int, AuthRow>,
                                       f1: DicomFile, t1: int, o1: Oracles, f2: DicomFile, t2: int, o2: Oracles)
    requires Delivered(f1.mediaStorageSopInstanceUid, o1) && Delivered(f2.mediaStorageSopInstanceUid, o2)
    requires Deletable(f1.mediaStorageSopInstanceUid, o1) && Deletable(f2.mediaStorageSopInstanceUid, o2)
    requires GetTagValue(f1, PatientID) == GetTagValue(f2, PatientID)
    ensures var (after, rows) := Run(files, [], auth, [Store(f1, t1, o1), Store(f2, t2, o2)]);
      && |rows| == 1
      && rows[0].imageCount == 2
      && rows[0].status == Completed
      && rows[0].filePath == CompressedPath(f2.mediaStorageSopInstanceUid)
      && rows[0].studyInstanceUid == GetTagValue(f1, StudyInstanceUID)
      && Describes(rows[0], f2)
      && (forall p :: p in after ==> p in files)
      && RawPath(f1.mediaStorageSopInstanceUid) !in after && CompressedPath(f1.mediaStorageSopInstanceUid) !in after
      && RawPath(f2.mediaStorageSopInstanceUid) !in after && CompressedPath(f2.mediaStorageSopInstanceUid) !in after
  {
    var uid1, uid2 := f1.mediaStorageSopInstanceUid, f2.mediaStorageSopInstanceUid;
    FirstDeliveredImage(files, auth, f1, t1, o1);
    DeliveredStoreCleansUp(files, [], auth, f1, t1, o1);
    var e1 := Stored(files, [], auth, f1, t1, o1);
    var row := NewRow(f1, CompressedPath(uid1), Completed, t1);
    FurtherDeliveredImage(e1.files, row, auth, f2, t2, o2);
    DeliveredStoreCleansUp(e1.files, e1.rows, auth, f2, t2, o2);
    var e2 := Stored(e1.files, e1.rows, auth, f2, t2, o2);
    var events := [Store(f1, t1, o1), Store(f2, t2, o2)];
    assert events[1..] == [Store(f2, t2, o2)] && [Store(f2, t2, o2)][1..] == [];
    assert Run(e1.files, e1.rows, auth, [Store(f2, t2, o2)]) == (e2.files, e2.rows);
    assert Run(files, [], auth, events) == (e2.files, e2.rows);
  }
}
