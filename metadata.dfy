/** The rows of the two SQLite tables, as the receiver and the reports window
    read and write them. The dicom_metadata table is a sequence of rows in
    insertion order; the auth table is a map from its INTEGER PRIMARY KEY. */
module Metadata {
  import opened Wrappers

  /** The three values the code writes into `status`. */
  const InProgress: string := "In Progress"
  const Completed: string := "Completed"
  const Failed: string := "Failed"

  /** One dicom_metadata row. `receivedAt` is CURRENT_TIMESTAMP in seconds. */
  datatype Row = Row(
    patientName: string,
    patientId: string,
    gender: string,
    age: string,
    studyInstanceUid: string,
    seriesInstanceUid: string,
    sopInstanceUid: string,
    studyDate: string,
    studyTime: string,
    modality: string,
    manufacturer: string,
    institutionName: string,
    status: string,
    filePath: string,
    imageCount: int,
    receivedAt: int)

  /** The auth columns the core reads; a NULL column is None. */
  datatype AuthRow = AuthRow(clientId: Option<int>, branchId: Option<int>, port: Option<int>)

  /** The one auth row the application keeps. */
  const AuthRowId: int := 1

  datatype TableName = Auth | DicomMetadata

  /** What the upsert relies on: every row has a positive image_count, there is
      at most one row per patient_id, and study_instance_uid is UNIQUE. */
  predicate TableInvariant(rows: seq<Row>) {
    PositiveCounts(rows) && DistinctPatients(rows) && DistinctStudies(rows)
  }

  predicate PositiveCounts(rows: seq<Row>) {
    forall i :: 0 <= i < |rows| ==> rows[i].imageCount >= 1
  }

  predicate DistinctPatients(rows: seq<Row>) {
    forall i, j :: 0 <= i < j < |rows| ==> rows[i].patientId != rows[j].patientId
  }

  predicate DistinctStudies(rows: seq<Row>) {
    forall i, j :: 0 <= i < j < |rows| ==> rows[i].studyInstanceUid != rows[j].studyInstanceUid
  }

  /** No row is in the "Failed" state. */
  predicate NoFailedRows(rows: seq<Row>) {
    forall i :: 0 <= i < |rows| ==> rows[i].status != Failed
  }
}
