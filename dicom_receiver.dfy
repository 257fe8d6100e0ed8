/** DicomReceiver: the DICOM service provider. It accepts every presentation
    context, answers C-ECHO, and runs each C-STORE through save, metadata
    upsert, normalisation to JPEG 2000 lossless, compression, upload and
    clean-up. The disk (Files.Disk) and the database (DatabaseHelper.Database)
    are the state it changes; the codec, the disk's write failures and the HTTP
    exchange are oracles bundled in `Oracles`. */
module DicomReceiver {
  import opened Wrappers
  import opened Dicom
  import opened Files
  import opened Relay
  import opened Metadata
  import opened DatabaseHelper
  import opened Sequences

  // ---------------------------------------------------------------------------
  // Association and C-ECHO

  datatype ContextResult =
    | Proposed
    | Accept
    | RejectUser
    | RejectNoReason
    | RejectAbstractSyntaxNotSupported
    | RejectTransferSyntaxesNotSupported

  /** One proposed presentation context of an association request. */
  class PresentationContext {
    const abstractSyntax: string
    var result: ContextResult

    constructor (abstractSyntax: string)
      ensures this.abstractSyntax == abstractSyntax && result == Proposed
    {
      this.abstractSyntax := abstractSyntax;
      result := Proposed;
    }
  }

  /** Sets every proposed context to Accept, whatever its abstract syntax, then
      sends the association accept. `acceptSent` is whether that send succeeded;
      a failure is caught and only changes what is returned. */
  method OnReceiveAssociationRequest(contexts: seq<PresentationContext>, acceptSent: bool)
    returns (accepted: bool)
    modifies set c | c in contexts
    ensures forall i :: 0 <= i < |contexts| ==> contexts[i].result == Accept
    ensures accepted == acceptSent
  {
    for i := 0 to |contexts|
      invariant forall j :: 0 <= j < i ==> contexts[j].result == Accept
    {
      contexts[i].result := Accept;
    }
    accepted := acceptSent;
  }

  datatype DimseStatus = Success | ProcessingFailure

  datatype EchoRequest = EchoRequest(messageId: int)
  datatype EchoResponse = EchoResponse(messageIdBeingRespondedTo: int, status: DimseStatus)

  /** C-ECHO has no side effect and always succeeds. */
  function OnCEchoRequest(request: EchoRequest): (response: EchoResponse)
    ensures response.status == Success
    ensures response.messageIdBeingRespondedTo == request.messageId
  {
    EchoResponse(request.messageId, Success)
  }

  // ---------------------------------------------------------------------------
  // Storage paths

  /** LocalApplicationData\smaro_scp_app\dicoms */
  const DicomFolder: string := "LocalApplicationData\\smaro_scp_app\\dicoms"
  const ConvertedSuffix: string := "_converted.dcm"
  const CompressedSuffix: string := "_compressed.dcm"

  function RawPath(uid: string): string {
    DicomFolder + "\\" + uid + ".dcm"
  }

  function ConvertedPath(uid: string): string {
    DicomFolder + "\\" + uid + ConvertedSuffix
  }

  function CompressedPath(uid: string): string {
    DicomFolder + "\\" + uid + CompressedSuffix
  }

  predicate IsCompressedPath(path: string) {
    |path| >= |CompressedSuffix| && path[|path| - |CompressedSuffix|..] == CompressedSuffix
  }

  /** The three files of one SOP instance never coincide, and only the last one
      is a compressed path. */
  function StoragePaths(uid: string): (paths: (string, string, string))
    ensures paths.0 != paths.1 && paths.1 != paths.2 && paths.0 != paths.2
    ensures IsCompressedPath(paths.2) && !IsCompressedPath(paths.1)
  {
    ConvertedIsNeverCompressed(uid);
    assert CompressedPath(uid)[|CompressedPath(uid)| - |CompressedSuffix|..] == CompressedSuffix;
    (RawPath(uid), ConvertedPath(uid), CompressedPath(uid))
  }

  /** No converted path, whatever its UID, is the compressed path of any UID. */
  lemma ConvertedIsNeverCompressed(uid: string)
    ensures !IsCompressedPath(ConvertedPath(uid))
  {
    var p := ConvertedPath(uid);
    var n := |p|;
    assert p == (DicomFolder + "\\" + uid) + ConvertedSuffix;
    assert p[n - 14] == ConvertedSuffix[0] == '_';
    // the suffix a compressed path would need has 'c' where `p` has '_'
    assert p[n - |CompressedSuffix|..][1] == p[n - 14] != CompressedSuffix[1];
  }

  // ---------------------------------------------------------------------------
  // Reading data elements and the auth row

  const NotAvailable: string := "N/A"

  /** GetTagValue: the element's single value, or "N/A" when the element is
      absent or has no single value. */
  function GetTagValue(f: DicomFile, tag: Tag): (v: string)
    ensures tag !in f.dataset ==> v == NotAvailable
    ensures v != NotAvailable ==> tag in f.dataset && f.dataset[tag] == Some(v)
    ensures tag in f.dataset && f.dataset[tag].Some? ==> v == f.dataset[tag].value
  {
    if tag in f.dataset then
      match f.dataset[tag]
      case Some(value) => value
      case None => NotAvailable
    else NotAvailable
  }

  /** GetAuthDetails: (branch_id, client_id) of auth row 1, or (0, 0) when the
      row is missing, a column is NULL, or the database cannot be read. */
  function GetAuthDetails(auth: map<int, AuthRow>, readable: bool): (ids: (int, int))
    ensures !readable || AuthRowId !in auth ==> ids == (0, 0)
    ensures ids != (0, 0) ==>
      readable && AuthRowId in auth && auth[AuthRowId].branchId == Some(ids.0) && auth[AuthRowId].clientId == Some(ids.1)
    ensures readable && AuthRowId in auth && auth[AuthRowId].branchId.Some? && auth[AuthRowId].clientId.Some? ==>
      ids == (auth[AuthRowId].branchId.value, auth[AuthRowId].clientId.value)
  {
    if readable && AuthRowId in auth && auth[AuthRowId].branchId.Some? && auth[AuthRowId].clientId.Some?
    then (auth[AuthRowId].branchId.value, auth[AuthRowId].clientId.value)
    else (0, 0)
  }

  // ---------------------------------------------------------------------------
  // Metadata upsert

  /** The row describes the file: every column the upsert copies from a data
      element holds that element's value. */
  predicate Describes(row: Row, f: DicomFile) {
    && row.patientName == GetTagValue(f, PatientName)
    && row.patientId == GetTagValue(f, PatientID)
    && row.gender == GetTagValue(f, PatientSex)
    && row.age == GetTagValue(f, PatientAge)
    && row.seriesInstanceUid == GetTagValue(f, SeriesInstanceUID)
    && row.sopInstanceUid == GetTagValue(f, SOPInstanceUID)
    && row.studyDate == GetTagValue(f, StudyDate)
    && row.studyTime == GetTagValue(f, StudyTime)
    && row.modality == GetTagValue(f, Modality)
    && row.manufacturer == GetTagValue(f, Manufacturer)
    && row.institutionName == GetTagValue(f, InstitutionName)
  }

  /** The row the INSERT branch writes. */
  function NewRow(f: DicomFile, path: string, status: string, now: int): Row {
    Row(GetTagValue(f, PatientName), GetTagValue(f, PatientID), GetTagValue(f, PatientSex),
        GetTagValue(f, PatientAge), GetTagValue(f, StudyInstanceUID), GetTagValue(f, SeriesInstanceUID),
        GetTagValue(f, SOPInstanceUID), GetTagValue(f, StudyDate), GetTagValue(f, StudyTime),
        GetTagValue(f, Modality), GetTagValue(f, Manufacturer), GetTagValue(f, InstitutionName),
        status, path, 1, now)
  }

  /** The UPDATE branch applied to one row: study_instance_uid is not in its SET
      list, image_count rises by one. */
  function Overwritten(row: Row, f: DicomFile, path: string, status: string, now: int): Row {
    row.(patientName := GetTagValue(f, PatientName), patientId := GetTagValue(f, PatientID),
         gender := GetTagValue(f, PatientSex), age := GetTagValue(f, PatientAge),
         seriesInstanceUid := GetTagValue(f, SeriesInstanceUID), sopInstanceUid := GetTagValue(f, SOPInstanceUID),
         studyDate := GetTagValue(f, StudyDate), studyTime := GetTagValue(f, StudyTime),
         modality := GetTagValue(f, Modality), manufacturer := GetTagValue(f, Manufacturer),
         institutionName := GetTagValue(f, InstitutionName), status := status, filePath := path,
         receivedAt := now, imageCount := row.imageCount + 1)
  }

  /** `SELECT image_count FROM dicom_metadata WHERE patient_id = @PatientID`,
      first row read, or 0 when there is none. */
  function SelectImageCount(rows: seq<Row>, patientId: string): (count: int)
    ensures (forall i :: 0 <= i < |rows| ==> rows[i].patientId != patientId) ==> count == 0
    ensures forall i ::
      (0 <= i < |rows| && rows[i].patientId == patientId && (forall j :: 0 <= j < i ==> rows[j].patientId != patientId))
      ==> count == rows[i].imageCount
  {
    if rows == [] then 0
    else if rows[0].patientId == patientId then rows[0].imageCount
    else
      var rest := SelectImageCount(rows[1..], patientId);
      assert forall i :: 1 <= i < |rows| ==> rows[i] == rows[1..][i - 1];
      rest
  }

  /** The UPDATE ... WHERE patient_id = @PatientID statement. */
  function UpdateByPatient(rows: seq<Row>, f: DicomFile, path: string, status: string, now: int): seq<Row> {
    seq(|rows|, i requires 0 <= i < |rows| =>
      if rows[i].patientId == GetTagValue(f, PatientID) then Overwritten(rows[i], f, path, status, now) else rows[i])
  }

  datatype UpsertOutcome = Updated | Inserted | Rejected

  /** SaveDicomMetadataToDatabase as a function of the table: update when the
      patient's image_count is positive, otherwise insert; an INSERT refused by
      the UNIQUE constraint is caught and leaves the table as it was. */
  function Upserted(rows: seq<Row>, f: DicomFile, path: string, status: string, now: int): (seq<Row>, UpsertOutcome) {
    if SelectImageCount(rows, GetTagValue(f, PatientID)) > 0 then
      (UpdateByPatient(rows, f, path, status, now), Updated)
    else
      match InsertIntoMetadata(rows, NewRow(f, path, status, now))
      case Some(inserted) => (inserted, Inserted)
      case None => (rows, Rejected)
  }

  /** A known patient: their one row is overwritten from the file, its
      image_count rises by exactly one, its study_instance_uid is kept, and no
      other row changes. */
  lemma UpsertOverwritesExisting(rows: seq<Row>, f: DicomFile, path: string, status: string, now: int, i: int)
    requires TableInvariant(rows)
    requires 0 <= i < |rows| && rows[i].patientId == GetTagValue(f, PatientID)
    ensures var (after, outcome) := Upserted(rows, f, path, status, now);
      && outcome == Updated && |after| == |rows|
      && Describes(after[i], f) && after[i].status == status && after[i].filePath == path
      && after[i].receivedAt == now && after[i].imageCount == rows[i].imageCount + 1
      && after[i].studyInstanceUid == rows[i].studyInstanceUid
      && (forall j :: 0 <= j < |rows| && j != i ==> after[j] == rows[j])
  {
    assert SelectImageCount(rows, GetTagValue(f, PatientID)) == rows[i].imageCount;
  }

  /** A new patient: one row describing the file is appended with image_count 1,
      unless its study_instance_uid is taken, in which case nothing is added. */
  lemma UpsertInsertsNew(rows: seq<Row>, f: DicomFile, path: string, status: string, now: int)
    requires TableInvariant(rows)
    requires forall j :: 0 <= j < |rows| ==> rows[j].patientId != GetTagValue(f, PatientID)
    ensures var (after, outcome) := Upserted(rows, f, path, status, now);
      var taken := exists j :: 0 <= j < |rows| && rows[j].studyInstanceUid == GetTagValue(f, StudyInstanceUID);
      && (taken ==> outcome == Rejected && after == rows)
      && (!taken ==>
            (&& outcome == Inserted && |after| == |rows| + 1 && after[..|rows|] == rows
             && Describes(after[|rows|], f) && after[|rows|].imageCount == 1
             && after[|rows|].studyInstanceUid == GetTagValue(f, StudyInstanceUID)
             && after[|rows|].status == status && after[|rows|].filePath == path
             && after[|rows|].receivedAt == now))
  {
  }

  /** The `image_count > 0` test: a patient whose first row has a count of zero
      or less is not found, and a second row for that patient is inserted. The
      table invariant (counts start at 1 and only grow) keeps this from
      happening. */
  lemma ZeroCountRowIsNotFound(rows: seq<Row>, f: DicomFile, path: string, status: string, now: int, i: int)
    requires 0 <= i < |rows| && rows[i].patientId == GetTagValue(f, PatientID) && rows[i].imageCount <= 0
    requires forall j :: 0 <= j < i ==> rows[j].patientId != GetTagValue(f, PatientID)
    requires forall j :: 0 <= j < |rows| ==> rows[j].studyInstanceUid != GetTagValue(f, StudyInstanceUID)
    ensures var after := Upserted(rows, f, path, status, now).0;
      |after| == |rows| + 1 && after[i].patientId == after[|rows|].patientId
  {
  }

  /** Every row written by the receiver names a compressed file. */
  predicate AllCompressedPaths(rows: seq<Row>) {
    forall i :: 0 <= i < |rows| ==> IsCompressedPath(rows[i].filePath)
  }

  /** The upsert keeps one row per patient, positive counts, unique study UIDs,
      compressed file paths and the absence of "Failed" rows. */
  lemma UpsertPreservesInvariants(rows: seq<Row>, f: DicomFile, uid: string, status: string, now: int)
    requires TableInvariant(rows)
    requires status != Failed
    ensures var after := Upserted(rows, f, CompressedPath(uid), status, now).0;
      && TableInvariant(after)
      && (AllCompressedPaths(rows) ==> AllCompressedPaths(after))
      && (NoFailedRows(rows) ==> NoFailedRows(after))
  {
    UpsertKeepsTableInvariant(rows, f, CompressedPath(uid), status, now);
    UpsertKeepsColumns(rows, f, CompressedPath(uid), status, now);
    var _ := StoragePaths(uid);
  }

  /** Every row after the upsert is an old row, or has the new path and status. */
  lemma UpsertKeepsColumns(rows: seq<Row>, f: DicomFile, path: string, status: string, now: int)
    ensures var after := Upserted(rows, f, path, status, now).0;
      forall i :: 0 <= i < |after| ==> after[i] in rows || (after[i].filePath == path && after[i].status == status)
  {
  }

  /** SaveDicomMetadataToDatabase: reads the patient's image_count, then updates
      the patient's row or inserts a new one. Errors are caught. */
  method SaveDicomMetadataToDatabase(db: Database, f: DicomFile, path: string, status: string, now: int)
    returns (outcome: UpsertOutcome)
    requires db.Valid() && db.Ready()
    modifies db`metadata
    ensures db.Valid()
    ensures (db.metadata, outcome) == Upserted(old(db.metadata), f, path, status, now)
  {
    var patientId := GetTagValue(f, PatientID);
    var currentImageCount := SelectImageCount(db.metadata, patientId);
    if currentImageCount > 0 {
      db.metadata := UpdateByPatient(db.metadata, f, path, status, now);
      outcome := Updated;
      UpsertKeepsTableInvariant(old(db.metadata), f, path, status, now);
    } else {
      var inserted := InsertIntoMetadata(db.metadata, NewRow(f, path, status, now));
      if inserted.Some? {
        UpsertKeepsTableInvariant(db.metadata, f, path, status, now);
        db.metadata := inserted.value;
        outcome := Inserted;
      } else {
        outcome := Rejected;
      }
    }
  }

  /** The part of UpsertPreservesInvariants that holds for any path. */
  lemma UpsertKeepsTableInvariant(rows: seq<Row>, f: DicomFile, path: string, status: string, now: int)
    requires TableInvariant(rows)
    ensures TableInvariant(Upserted(rows, f, path, status, now).0)
  {
    var pid := GetTagValue(f, PatientID);
    if SelectImageCount(rows, pid) > 0 {
      UpdateKeepsTableInvariant(rows, f, path, status, now);
    } else {
      KnownPatientIsFound(rows, pid);
      var row := NewRow(f, path, status, now);
      if InsertIntoMetadata(rows, row).Some? {
        assert TableInvariant(rows + [row]);
      }
    }
  }

  /** With the table invariant, a patient with a row has a positive count. */
  lemma KnownPatientIsFound(rows: seq<Row>, pid: string)
    requires TableInvariant(rows)
    ensures SelectImageCount(rows, pid) <= 0 ==> forall i :: 0 <= i < |rows| ==> rows[i].patientId != pid
  {
    forall i | 0 <= i < |rows| && rows[i].patientId == pid
      ensures SelectImageCount(rows, pid) >= 1
    {
      assert forall j :: 0 <= j < i ==> rows[j].patientId != pid;
    }
  }

  lemma UpdateKeepsTableInvariant(rows: seq<Row>, f: DicomFile, path: string, status: string, now: int)
    requires TableInvariant(rows)
    ensures TableInvariant(UpdateByPatient(rows, f, path, status, now))
  {
    var u := UpdateByPatient(rows, f, path, status, now);
    assert forall i :: 0 <= i < |rows| ==>
      && u[i].patientId == rows[i].patientId
      && u[i].studyInstanceUid == rows[i].studyInstanceUid
      && u[i].imageCount >= rows[i].imageCount;
  }

  // ---------------------------------------------------------------------------
  // Status update

  /** `UPDATE dicom_metadata SET status = @Status WHERE file_path = @FilePath`. */
  function SetStatusByPath(rows: seq<Row>, path: string, status: string): (after: seq<Row>)
    ensures |after| == |rows|
    ensures forall i :: 0 <= i < |rows| ==>
      after[i] == if rows[i].filePath == path then rows[i].(status := status) else rows[i]
  {
    seq(|rows|, i requires 0 <= i < |rows| =>
      if rows[i].filePath == path then rows[i].(status := status) else rows[i])
  }

  /** Only `status` can change: the table invariant survives, and a "Failed"
      row appears only where the new status is "Failed". */
  lemma SetStatusPreservesInvariants(rows: seq<Row>, path: string, status: string)
    ensures TableInvariant(rows) ==> TableInvariant(SetStatusByPath(rows, path, status))
    ensures AllCompressedPaths(rows) ==> AllCompressedPaths(SetStatusByPath(rows, path, status))
    ensures NoFailedRows(rows) && status != Failed ==> NoFailedRows(SetStatusByPath(rows, path, status))
  {
  }

  /** The failure branches update by the converted path, which no row written
      by the receiver holds: the update changes nothing. */
  lemma StatusByConvertedPathIsNoOp(rows: seq<Row>, uid: string, status: string)
    requires AllCompressedPaths(rows)
    ensures SetStatusByPath(rows, ConvertedPath(uid), status) == rows
  {
    ConvertedIsNeverCompressed(uid);
    var after := SetStatusByPath(rows, ConvertedPath(uid), status);
    assert forall i :: 0 <= i < |rows| ==> rows[i].filePath != ConvertedPath(uid);
    assert after == rows;
  }

  /** UpdateStatusInDatabase: changes the status of the rows at `path`, and
      nothing else. */
  method UpdateStatusInDatabase(db: Database, path: string, status: string)
    requires db.Valid()
    modifies db`metadata
    ensures db.Valid()
    ensures db.metadata == SetStatusByPath(old(db.metadata), path, status)
  {
    SetStatusPreservesInvariants(db.metadata, path, status);
    db.metadata := SetStatusByPath(db.metadata, path, status);
  }

  // ---------------------------------------------------------------------------
  // Normalisation to JPEG 2000 lossless

  const TargetSyntax: TransferSyntax := JPEG2000Lossless

  /** What ConvertToRequiredTransferSyntax writes: the input unchanged when it
      cannot be loaded, is already in the target syntax, or cannot be
      transcoded; the transcoded file otherwise. */
  function NormalizedArtifact(f: DicomFile, codec: Codec): (g: DicomFile)
    ensures g == f || (codec.opens(f) && f.syntax != TargetSyntax && codec.transcode(f, TargetSyntax) == Transcoded(g))
    ensures !codec.opens(f) || f.syntax == TargetSyntax || !codec.transcode(f, TargetSyntax).Transcoded? ==> g == f
    ensures codec.opens(f) && f.syntax != TargetSyntax && codec.transcode(f, TargetSyntax).Transcoded? ==>
      g == codec.transcode(f, TargetSyntax).file
  {
    if codec.opens(f) && f.syntax != TargetSyntax && codec.transcode(f, TargetSyntax).Transcoded?
    then codec.transcode(f, TargetSyntax).file
    else f
  }

  /** The disk after ConvertToRequiredTransferSyntax, or the exception that
      escapes it: a missing input, or an output that cannot be written (the
      fallback copy in the catch block fails too). */
  function Normalized(files: map<string, DicomFile>, input: string, output: string, codec: Codec, canWrite: string -> bool)
    : (r: Result<map<string, DicomFile>, FileError>)
    ensures r.Err? <==> input !in files || !canWrite(output)
    ensures input !in files ==> r == Err(FileNotFound(input))
    ensures r.Ok? ==> r.value == files[output := NormalizedArtifact(files[input], codec)]
  {
    if input !in files then Err(FileNotFound(input))
    else if !canWrite(output) then Err(WriteFailed(output))
    else Ok(files[output := NormalizedArtifact(files[input], codec)])
  }

  method ConvertToRequiredTransferSyntax(disk: Disk, inputFilePath: string, outputFilePath: string,
                                         codec: Codec, canWrite: string -> bool)
    returns (r: Outcome<FileError>)
    modifies disk
    ensures var n := Normalized(old(disk.files), inputFilePath, outputFilePath, codec, canWrite);
      && (n.Ok? ==> r == Pass && disk.files == n.value)
      && (n.Err? ==> r == Fail(n.error) && disk.files == old(disk.files))
  {
    // whether the try block ran to its end without an exception
    var completed := false;
    if inputFilePath in disk.files && codec.opens(disk.files[inputFilePath]) {
      var dicomFile := disk.files[inputFilePath];
      if dicomFile.syntax == TargetSyntax {
        var copied := disk.Copy(inputFilePath, outputFilePath, canWrite);
        completed := copied.Pass?;
      } else {
        match codec.transcode(dicomFile, TargetSyntax)
        case Transcoded(transcodedFile) =>
          var saved := disk.Save(outputFilePath, transcodedFile, canWrite);
          completed := saved.Pass?;
        case NotSupported =>
          // the inner catch: fall back to copying the input
          var copied := disk.Copy(inputFilePath, outputFilePath, canWrite);
          completed := copied.Pass?;
        case CodecFailure =>
      }
    }
    r := Pass;
    if !completed {
      // the outer catch: copy the input through; a failure here escapes
      r := disk.Copy(inputFilePath, outputFilePath, canWrite);
    }
  }

  // ---------------------------------------------------------------------------
  // Compression: an ordered fallback chain

  /** The candidates, from highest to lowest compression. */
  const CompressionSyntaxes: seq<TransferSyntax> :=
    [JPEG2000Lossless, JPEGLSLossless, JPEGProcess14SV1, RLELossless, JPEG2000Lossy, JPEGLSNearLossless]

  /** A candidate succeeds when it is encapsulated, the transcoder produces a
      file, and that file can be saved. */
  predicate Succeeds(ts: TransferSyntax, f: DicomFile, codec: Codec, writable: bool) {
    IsEncapsulated(ts) && codec.transcode(f, ts).Transcoded? && writable
  }

  /** The position of the first candidate that succeeds, or |candidates|. */
  function FirstSuccess(candidates: seq<TransferSyntax>, f: DicomFile, codec: Codec, writable: bool): (k: nat)
    ensures k <= |candidates|
    ensures k < |candidates| ==> Succeeds(candidates[k], f, codec, writable)
    ensures forall j :: 0 <= j < k ==> !Succeeds(candidates[j], f, codec, writable)
  {
    if candidates == [] then 0
    else if Succeeds(candidates[0], f, codec, writable) then 0
    else
      var k := 1 + FirstSuccess(candidates[1..], f, codec, writable);
      assert forall j :: 1 <= j < |candidates| ==> candidates[j] == candidates[1..][j - 1];
      k
  }

  /** The first success is at `i` when candidate `i` succeeds (or `i` is the
      end) and every earlier one fails. */
  lemma FirstSuccessAt(candidates: seq<TransferSyntax>, f: DicomFile, codec: Codec, writable: bool, i: int)
    requires 0 <= i <= |candidates|
    requires i < |candidates| ==> Succeeds(candidates[i], f, codec, writable)
    requires forall j :: 0 <= j < i ==> !Succeeds(candidates[j], f, codec, writable)
    ensures FirstSuccess(candidates, f, codec, writable) == i
  {
  }

  /** The encapsulated members of `s`, in order: the ones the loop attempts. */
  function EncapsulatedOf(s: seq<TransferSyntax>): (e: seq<TransferSyntax>)
    ensures |e| <= |s|
    ensures forall i :: 0 <= i < |e| ==> IsEncapsulated(e[i]) && e[i] in s
  {
    if s == [] then []
    else
      var last := s[|s| - 1];
      var front := EncapsulatedOf(s[..|s| - 1]);
      assert forall x :: x in front ==> x in s;
      if IsEncapsulated(last) then front + [last] else front
  }

  /** The loop skips exactly the syntaxes that are not encapsulated: every
      encapsulated member of `s` is attempted, as often as it occurs, no other
      one is, and the attempts keep the order of `s`. */
  lemma {:induction false} EncapsulatedOfSelects(s: seq<TransferSyntax>)
    ensures forall x :: multiset(EncapsulatedOf(s))[x] == if IsEncapsulated(x) then multiset(s)[x] else 0
    ensures IsSubsequence(EncapsulatedOf(s), s)
  {
    if s != [] {
      var last := s[|s| - 1];
      var front := EncapsulatedOf(s[..|s| - 1]);
      EncapsulatedOfSelects(s[..|s| - 1]);
      assert s == s[..|s| - 1] + [last];
      if IsEncapsulated(last) {
        assert (front + [last])[..|front|] == front;
      }
    }
  }

  /** A sequence of encapsulated syntaxes is attempted in full. */
  lemma {:induction false} EncapsulatedOfAll(s: seq<TransferSyntax>)
    requires forall i :: 0 <= i < |s| ==> IsEncapsulated(s[i])
    ensures EncapsulatedOf(s) == s
  {
    if s != [] {
      EncapsulatedOfAll(s[..|s| - 1]);
      assert s == s[..|s| - 1] + [s[|s| - 1]];
    }
  }

  /** Every candidate is encapsulated, so none is skipped. */
  lemma AllCandidatesEncapsulated(i: int)
    requires 0 <= i <= |CompressionSyntaxes|
    ensures EncapsulatedOf(CompressionSyntaxes[..i]) == CompressionSyntaxes[..i]
  {
    EncapsulatedOfAll(CompressionSyntaxes[..i]);
  }

  /** How many candidates the loop looks at: up to and including the winner,
      or all of them. */
  function CandidatesExamined(f: DicomFile, codec: Codec, writable: bool): (n: nat)
    ensures 1 <= n <= |CompressionSyntaxes|
    ensures forall j :: 0 <= j < n - 1 ==> !Succeeds(CompressionSyntaxes[j], f, codec, writable)
    ensures n < |CompressionSyntaxes| ==> Succeeds(CompressionSyntaxes[n - 1], f, codec, writable)
  {
    var k := FirstSuccess(CompressionSyntaxes, f, codec, writable);
    if k < |CompressionSyntaxes| then k + 1 else k
  }

  /** The syntaxes CompressDicomFile attempts, in order. */
  function CompressionAttempts(files: map<string, DicomFile>, input: string, codec: Codec, writable: bool): seq<TransferSyntax> {
    if input !in files || !codec.opens(files[input]) then []
    else EncapsulatedOf(CompressionSyntaxes[..CandidatesExamined(files[input], codec, writable)])
  }

  /** What CompressDicomFile writes when its output can be written: the first
      candidate's transcoding that succeeds, or the input unchanged. */
  function CompressedArtifact(f: DicomFile, codec: Codec): DicomFile {
    var k := FirstSuccess(CompressionSyntaxes, f, codec, true);
    if codec.opens(f) && k < |CompressionSyntaxes| then codec.transcode(f, CompressionSyntaxes[k]).file else f
  }

  /** The disk after CompressDicomFile, or the exception that escapes it. */
  function Compressed(files: map<string, DicomFile>, input: string, output: string, codec: Codec, canWrite: string -> bool)
    : (r: Result<map<string, DicomFile>, FileError>)
    ensures r.Err? <==> input !in files || !canWrite(output)
    ensures input !in files ==> r == Err(FileNotFound(input))
    ensures r.Ok? ==> r.value == files[output := CompressedArtifact(files[input], codec)]
  {
    if input !in files then Err(FileNotFound(input))
    else if !canWrite(output) then Err(WriteFailed(output))
    else Ok(files[output := CompressedArtifact(files[input], codec)])
  }

  /** First success wins: when some candidate succeeds, the output is the
      transcoding by the first one that does, every candidate before it failed
      or was skipped, and none after it is attempted. */
  lemma FirstSuccessWins(f: DicomFile, codec: Codec, k: int)
    requires codec.opens(f)
    requires 0 <= k < |CompressionSyntaxes| && Succeeds(CompressionSyntaxes[k], f, codec, true)
    requires forall j :: 0 <= j < k ==> !Succeeds(CompressionSyntaxes[j], f, codec, true)
    ensures CompressedArtifact(f, codec) == codec.transcode(f, CompressionSyntaxes[k]).file
    ensures CompressionAttempts(map["in" := f], "in", codec, true) == CompressionSyntaxes[..k + 1]
    ensures HonoursTarget(codec) ==> CompressedArtifact(f, codec).syntax == CompressionSyntaxes[k]
  {
    AllCandidatesEncapsulated(k + 1);
  }

  /** When every candidate fails, or the file cannot be loaded, the output is a
      copy of the input. */
  lemma CompressionFallsBackToCopy(f: DicomFile, codec: Codec)
    requires !codec.opens(f) || forall j :: 0 <= j < |CompressionSyntaxes| ==> !Succeeds(CompressionSyntaxes[j], f, codec, true)
    ensures CompressedArtifact(f, codec) == f
  {
  }

  /** The foreach loop of CompressDicomFile: stops at the first candidate that
      is encapsulated, transcodes and saves. */
  method TryCandidates(disk: Disk, outputFilePath: string, dicomFile: DicomFile, codec: Codec, canWrite: string -> bool)
    returns (compressed: bool, attempts: seq<TransferSyntax>)
    modifies disk
    ensures var k := FirstSuccess(CompressionSyntaxes, dicomFile, codec, canWrite(outputFilePath));
      && compressed == (k < |CompressionSyntaxes|)
      && (compressed ==> disk.files == old(disk.files)[outputFilePath := codec.transcode(dicomFile, CompressionSyntaxes[k]).file])
      && (!compressed ==> disk.files == old(disk.files))
    ensures attempts == EncapsulatedOf(CompressionSyntaxes[..CandidatesExamined(dicomFile, codec, canWrite(outputFilePath))])
  {
    attempts := [];
    var i := 0;
    while i < |CompressionSyntaxes|
      invariant 0 <= i <= |CompressionSyntaxes|
      invariant disk.files == old(disk.files)
      invariant attempts == EncapsulatedOf(CompressionSyntaxes[..i])
      invariant forall j :: 0 <= j < i ==> !Succeeds(CompressionSyntaxes[j], dicomFile, codec, canWrite(outputFilePath))
    {
      var syntax := CompressionSyntaxes[i];
      assert CompressionSyntaxes[..i + 1][..i] == CompressionSyntaxes[..i];
      if IsEncapsulated(syntax) {
        attempts := attempts + [syntax];
        var transcoded := codec.transcode(dicomFile, syntax);
        if transcoded.Transcoded? {
          var saved := disk.Save(outputFilePath, transcoded.file, canWrite);
          if saved.Pass? {
            FirstSuccessAt(CompressionSyntaxes, dicomFile, codec, canWrite(outputFilePath), i);
            return true, attempts;
          }
        }
      }
      i := i + 1;
    }
    FirstSuccessAt(CompressionSyntaxes, dicomFile, codec, canWrite(outputFilePath), i);
    compressed := false;
  }

  /** CompressDicomFile: throws FileNotFoundException for a missing input; else
      tries each candidate in order, skipping non-encapsulated ones, stops at
      the first that succeeds, and otherwise copies the input. */
  method CompressDicomFile(disk: Disk, inputFilePath: string, outputFilePath: string,
                           codec: Codec, canWrite: string -> bool)
    returns (r: Outcome<FileError>, attempts: seq<TransferSyntax>)
    modifies disk
    ensures var c := Compressed(old(disk.files), inputFilePath, outputFilePath, codec, canWrite);
      && (c.Ok? ==> r == Pass && disk.files == c.value)
      && (c.Err? ==> r == Fail(c.error) && disk.files == old(disk.files))
    ensures attempts == CompressionAttempts(old(disk.files), inputFilePath, codec, canWrite(outputFilePath))
  {
    attempts := [];
    if inputFilePath !in disk.files {
      return Fail(FileNotFound(inputFilePath)), attempts;
    }
    var dicomFile := disk.files[inputFilePath];
    var compressed := false;
    if codec.opens(dicomFile) {
      compressed, attempts := TryCandidates(disk, outputFilePath, dicomFile, codec, canWrite);
    }
    if compressed {
      return Pass, attempts;
    }
    r := disk.Copy(inputFilePath, outputFilePath, canWrite);
    if r.Fail? {
      // the outer catch copies once more, and that copy fails in the same way
      r := disk.Copy(inputFilePath, outputFilePath, canWrite);
    }
  }

  // ---------------------------------------------------------------------------
  // Upload

  /** SendDicomFileToOrthanc: posts the file with the given identifiers; true
      exactly on a success status code. A file that cannot be opened, or any
      exception, gives false. */
  function SendDicomFileToOrthanc(files: map<string, DicomFile>, path: string, ids: (int, int), http: HttpOutcome)
    : (u: Upload)
    ensures u.posted.Some? <==> path in files
    ensures u.posted.Some? ==> u.posted.value == UploadRequest(ArchiveUrl, FileName(path), files[path], ids.0, ids.1)
    ensures u.sent <==> path in files && Uploaded(http)
  {
    if path !in files then Upload(None, false)
    else Upload(Some(UploadRequest(ArchiveUrl, FileName(path), files[path], ids.0, ids.1)), Uploaded(http))
  }

  // ---------------------------------------------------------------------------
  // The C-STORE pipeline

  /** The oracle answers one C-STORE needs. */
  datatype Oracles = Oracles(
    canWrite: string -> bool,
    canDelete: string -> bool,
    codec: Codec,
    authReadable: bool,
    http: HttpOutcome)

  /** The C-STORE response, or the exception that leaves the handler: the
      received file cannot be saved, or a delete in the catch block throws. */
  datatype StoreResponse = Answered(status: DimseStatus) | Threw

  datatype StoreEffect = StoreEffect(files: map<string, DicomFile>, rows: seq<Row>, response: StoreResponse)

  /** The catch block: deletes the received and the converted file, then marks
      the rows at the converted path "Failed". A delete that throws here leaves
      the handler; otherwise the handler goes on to answer Success. */
  function FailureCleanup(files: map<string, DicomFile>, rows: seq<Row>, uid: string, canDelete: string -> bool): StoreEffect {
    match Deleted(files, RawPath(uid), canDelete)
    case Err(_) => StoreEffect(files, rows, Threw)
    case Ok(withoutRaw) =>
      match Deleted(withoutRaw, ConvertedPath(uid), canDelete)
      case Err(_) => StoreEffect(withoutRaw, rows, Threw)
      case Ok(withoutBoth) => StoreEffect(withoutBoth, SetStatusByPath(rows, ConvertedPath(uid), Failed), Answered(Success))
  }

  /** The branch for an upload that failed: the catch block's steps, inside the
      try, so a delete that throws runs the catch block. */
  function AfterFailedUpload(files: map<string, DicomFile>, rows: seq<Row>, uid: string, canDelete: string -> bool): StoreEffect {
    match Deleted(files, RawPath(uid), canDelete)
    case Err(_) => FailureCleanup(files, rows, uid, canDelete)
    case Ok(withoutRaw) =>
      match Deleted(withoutRaw, ConvertedPath(uid), canDelete)
      case Err(_) => FailureCleanup(withoutRaw, rows, uid, canDelete)
      case Ok(withoutBoth) => StoreEffect(withoutBoth, SetStatusByPath(rows, ConvertedPath(uid), Failed), Answered(Success))
  }

  /** The branch for a successful upload: marks the rows at the compressed path
      "Completed", then deletes the three files; a delete that throws runs the
      catch block. */
  function AfterDelivery(files: map<string, DicomFile>, rows: seq<Row>, uid: string, canDelete: string -> bool): StoreEffect {
    var completed := SetStatusByPath(rows, CompressedPath(uid), Completed);
    match Deleted(files, RawPath(uid), canDelete)
    case Err(_) => FailureCleanup(files, completed, uid, canDelete)
    case Ok(withoutRaw) =>
      match Deleted(withoutRaw, ConvertedPath(uid), canDelete)
      case Err(_) => FailureCleanup(withoutRaw, completed, uid, canDelete)
      case Ok(withoutBoth) =>
        match Deleted(withoutBoth, CompressedPath(uid), canDelete)
        case Err(_) => FailureCleanup(withoutBoth, completed, uid, canDelete)
        case Ok(withoutAll) => StoreEffect(withoutAll, completed, Answered(Success))
  }

  /** The failed-upload branch ends exactly as the catch block alone would: when
      one of its deletes throws, the catch block finds the files it already
      removed gone and throws at the same file. */
  lemma AfterFailedUploadIsFailureCleanup(files: map<string, DicomFile>, rows: seq<Row>, uid: string, canDelete: string -> bool)
    ensures AfterFailedUpload(files, rows, uid, canDelete) == FailureCleanup(files, rows, uid, canDelete)
  {
    match Deleted(files, RawPath(uid), canDelete)
    case Err(_) =>
    case Ok(withoutRaw) =>
      assert withoutRaw - {RawPath(uid)} == withoutRaw;
  }

  /** The try/catch block of OnCStoreRequestAsync, after the save and the upsert. */
  function Processed(files: map<string, DicomFile>, rows: seq<Row>, auth: map<int, AuthRow>, uid: string, o: Oracles): StoreEffect {
    match Normalized(files, RawPath(uid), ConvertedPath(uid), o.codec, o.canWrite)
    case Err(_) => FailureCleanup(files, rows, uid, o.canDelete)
    case Ok(normalized) =>
      match Compressed(normalized, ConvertedPath(uid), CompressedPath(uid), o.codec, o.canWrite)
      case Err(_) => FailureCleanup(normalized, rows, uid, o.canDelete)
      case Ok(compressed) =>
        var upload := SendDicomFileToOrthanc(compressed, CompressedPath(uid), GetAuthDetails(auth, o.authReadable), o.http);
        if upload.sent then AfterDelivery(compressed, rows, uid, o.canDelete)
        else AfterFailedUpload(compressed, rows, uid, o.canDelete)
  }

  /** OnCStoreRequestAsync as a function of the disk and the table. */
  function Stored(files: map<string, DicomFile>, rows: seq<Row>, auth: map<int, AuthRow>, f: DicomFile, now: int, o: Oracles)
    : (e: StoreEffect)
    ensures !o.canWrite(RawPath(f.mediaStorageSopInstanceUid)) ==> e == StoreEffect(files, rows, Threw)
  {
    var uid := f.mediaStorageSopInstanceUid;
    if !o.canWrite(RawPath(uid)) then StoreEffect(files, rows, Threw)
    else Processed(files[RawPath(uid) := f], Upserted(rows, f, CompressedPath(uid), InProgress, now).0, auth, uid, o)
  }

  /** Whether the object reaches the archive: all three files can be written
      and the POST returns a success status code. */
  predicate Delivered(uid: string, o: Oracles) {
    o.canWrite(RawPath(uid)) && o.canWrite(ConvertedPath(uid)) && o.canWrite(CompressedPath(uid)) && Uploaded(o.http)
  }

  /** Whether all three files of the object can be removed. */
  predicate Deletable(uid: string, o: Oracles) {
    o.canDelete(RawPath(uid)) && o.canDelete(ConvertedPath(uid)) && o.canDelete(CompressedPath(uid))
  }

  /** The catch block. */
  method CleanUpAfterFailure(disk: Disk, db: Database, uid: string, canDelete: string -> bool)
    returns (response: StoreResponse)
    requires db.Valid()
    modifies disk, db`metadata
    ensures db.Valid()
    ensures StoreEffect(disk.files, db.metadata, response) == FailureCleanup(old(disk.files), old(db.metadata), uid, canDelete)
  {
    var deleted := disk.Delete(RawPath(uid), canDelete);
    if deleted.Fail? {
      return Threw;
    }
    deleted := disk.Delete(ConvertedPath(uid), canDelete);
    if deleted.Fail? {
      return Threw;
    }
    UpdateStatusInDatabase(db, ConvertedPath(uid), Failed);
    response := Answered(Success);
  }

  /** The else branch for an upload that failed. */
  method CleanUpAfterFailedUpload(disk: Disk, db: Database, uid: string, canDelete: string -> bool)
    returns (response: StoreResponse)
    requires db.Valid()
    modifies disk, db`metadata
    ensures db.Valid()
    ensures StoreEffect(disk.files, db.metadata, response) == AfterFailedUpload(old(disk.files), old(db.metadata), uid, canDelete)
  {
    var deleted := disk.Delete(RawPath(uid), canDelete);
    if deleted.Fail? {
      response := CleanUpAfterFailure(disk, db, uid, canDelete);
      return;
    }
    deleted := disk.Delete(ConvertedPath(uid), canDelete);
    if deleted.Fail? {
      response := CleanUpAfterFailure(disk, db, uid, canDelete);
      return;
    }
    UpdateStatusInDatabase(db, ConvertedPath(uid), Failed);
    response := Answered(Success);
  }

  /** The branch for a successful upload. */
  method CleanUpAfterDelivery(disk: Disk, db: Database, uid: string, canDelete: string -> bool)
    returns (response: StoreResponse)
    requires db.Valid()
    modifies disk, db`metadata
    ensures db.Valid()
    ensures StoreEffect(disk.files, db.metadata, response) == AfterDelivery(old(disk.files), old(db.metadata), uid, canDelete)
  {
    UpdateStatusInDatabase(db, CompressedPath(uid), Completed);
    var deleted := disk.Delete(RawPath(uid), canDelete);
    if deleted.Fail? {
      response := CleanUpAfterFailure(disk, db, uid, canDelete);
      return;
    }
    deleted := disk.Delete(ConvertedPath(uid), canDelete);
    if deleted.Fail? {
      response := CleanUpAfterFailure(disk, db, uid, canDelete);
      return;
    }
    deleted := disk.Delete(CompressedPath(uid), canDelete);
    if deleted.Fail? {
      response := CleanUpAfterFailure(disk, db, uid, canDelete);
      return;
    }
    response := Answered(Success);
  }

  /** The try/catch block of OnCStoreRequestAsync: normalise, compress, upload,
      clean up. */
  method ProcessReceivedFile(disk: Disk, db: Database, uid: string, o: Oracles) returns (response: StoreResponse)
    requires db.Valid()
    modifies disk, db`metadata
    ensures db.Valid()
    ensures StoreEffect(disk.files, db.metadata, response) == Processed(old(disk.files), old(db.metadata), db.auth, uid, o)
  {
    var converted := ConvertToRequiredTransferSyntax(disk, RawPath(uid), ConvertedPath(uid), o.codec, o.canWrite);
    if converted.Fail? {
      response := CleanUpAfterFailure(disk, db, uid, o.canDelete);
      return;
    }
    var compressed, attempts := CompressDicomFile(disk, ConvertedPath(uid), CompressedPath(uid), o.codec, o.canWrite);
    if compressed.Fail? {
      response := CleanUpAfterFailure(disk, db, uid, o.canDelete);
      return;
    }
    var ids := GetAuthDetails(db.auth, o.authReadable);
    var upload := SendDicomFileToOrthanc(disk.files, CompressedPath(uid), ids, o.http);
    if upload.sent {
      response := CleanUpAfterDelivery(disk, db, uid, o.canDelete);
    } else {
      response := CleanUpAfterFailedUpload(disk, db, uid, o.canDelete);
    }
  }

  /** OnCStoreRequestAsync: saves the received file (an exception here leaves
      the handler), records its metadata as "In Progress" under the compressed
      path, processes it, and answers Success unless the catch block throws. */
  method OnCStoreRequest(disk: Disk, db: Database, f: DicomFile, now: int, o: Oracles)
    returns (response: StoreResponse)
    requires db.Valid() && db.Ready()
    modifies disk, db`metadata
    ensures db.Valid()
    ensures StoreEffect(disk.files, db.metadata, response) == Stored(old(disk.files), old(db.metadata), db.auth, f, now, o)
  {
    var uid := f.mediaStorageSopInstanceUid;
    var saved := disk.Save(RawPath(uid), f, o.canWrite);
    if saved.Fail? {
      return Threw;
    }
    var _ := SaveDicomMetadataToDatabase(db, f, CompressedPath(uid), InProgress, now);
    response := ProcessReceivedFile(disk, db, uid, o);
  }

  // ---------------------------------------------------------------------------
  // What one C-STORE does

  /** The catch block answers Success when the received and the converted file
      can be removed, and throws when the received file is there and cannot. */
  lemma FailureCleanupAnswers(files: map<string, DicomFile>, rows: seq<Row>, uid: string, canDelete: string -> bool)
    ensures var e := FailureCleanup(files, rows, uid, canDelete);
      && (e.response == Threw || e.response == Answered(Success))
      && (canDelete(RawPath(uid)) && canDelete(ConvertedPath(uid)) ==> e.response == Answered(Success))
      && (RawPath(uid) in files && !canDelete(RawPath(uid)) ==> e.response == Threw)
  {
  }

  /** The successful-upload branch answers like the catch block: Success when
      the received and the converted file can be removed (a compressed file
      that cannot be removed only sends it to the catch block), and an
      exception when the received file is there and cannot be. */
  lemma AfterDeliveryAnswers(files: map<string, DicomFile>, rows: seq<Row>, uid: string, canDelete: string -> bool)
    ensures var e := AfterDelivery(files, rows, uid, canDelete);
      && (e.response == Threw || e.response == Answered(Success))
      && (canDelete(RawPath(uid)) && canDelete(ConvertedPath(uid)) ==> e.response == Answered(Success))
      && (RawPath(uid) in files && !canDelete(RawPath(uid)) ==> e.response == Threw)
  {
    var completed := SetStatusByPath(rows, CompressedPath(uid), Completed);
    FailureCleanupAnswers(files, completed, uid, canDelete);
    FailureCleanupAnswers(files - {RawPath(uid)}, completed, uid, canDelete);
    FailureCleanupAnswers(files - {RawPath(uid)} - {ConvertedPath(uid)}, completed, uid, canDelete);
  }

  /** The try/catch block answers like the catch block, given that the
      received file was saved. */
  lemma ProcessedAnswers(files: map<string, DicomFile>, rows: seq<Row>, auth: map<int, AuthRow>, uid: string, o: Oracles)
    requires RawPath(uid) in files
    ensures var e := Processed(files, rows, auth, uid, o);
      && (e.response == Threw || e.response == Answered(Success))
      && (o.canDelete(RawPath(uid)) && o.canDelete(ConvertedPath(uid)) ==> e.response == Answered(Success))
      && (!o.canDelete(RawPath(uid)) ==> e.response == Threw)
  {
    var _ := StoragePaths(uid);
    match Normalized(files, RawPath(uid), ConvertedPath(uid), o.codec, o.canWrite)
    case Err(_) =>
      FailureCleanupAnswers(files, rows, uid, o.canDelete);
    case Ok(normalized) =>
      match Compressed(normalized, ConvertedPath(uid), CompressedPath(uid), o.codec, o.canWrite)
      case Err(_) =>
        FailureCleanupAnswers(normalized, rows, uid, o.canDelete);
      case Ok(compressed) =>
        assert RawPath(uid) in compressed;
        AfterFailedUploadIsFailureCleanup(compressed, rows, uid, o.canDelete);
        FailureCleanupAnswers(compressed, rows, uid, o.canDelete);
        AfterDeliveryAnswers(compressed, rows, uid, o.canDelete);
  }

  /** The response of a C-STORE: Success or an exception, never another status.
      When the received and the converted file can be removed, the answer is
      Success exactly when the received file can be saved; once it is saved but
      cannot be removed, the handler throws whatever else happens. */
  lemma StoreResponses(files: map<string, DicomFile>, rows: seq<Row>, auth: map<int, AuthRow>, f: DicomFile, now: int, o: Oracles)
    ensures var uid := f.mediaStorageSopInstanceUid;
      var e := Stored(files, rows, auth, f, now, o);
      && (e.response == Threw || e.response == Answered(Success))
      && (o.canDelete(RawPath(uid)) && o.canDelete(ConvertedPath(uid)) ==>
            (e.response == Answered(Success) <==> o.canWrite(RawPath(uid))))
      && (o.canWrite(RawPath(uid)) && !o.canDelete(RawPath(uid)) ==> e.response == Threw)
  {
    var uid := f.mediaStorageSopInstanceUid;
    if o.canWrite(RawPath(uid)) {
      ProcessedAnswers(files[RawPath(uid) := f], Upserted(rows, f, CompressedPath(uid), InProgress, now).0, auth, uid, o);
    }
  }

  /** With compressed paths in the table, the catch block leaves the rows as
      they are, whatever it deletes. */
  lemma FailureCleanupKeepsRows(files: map<string, DicomFile>, rows: seq<Row>, uid: string, canDelete: string -> bool)
    requires AllCompressedPaths(rows)
    ensures FailureCleanup(files, rows, uid, canDelete).rows == rows
  {
    StatusByConvertedPathIsNoOp(rows, uid, Failed);
  }

  /** A delivered object: its row (the one the upsert wrote under the
      compressed path) is marked "Completed" without a further increment,
      whichever deletes throw. */
  lemma DeliveredStoreRows(files: map<string, DicomFile>, rows: seq<Row>, auth: map<int, AuthRow>, f: DicomFile, now: int, o: Oracles)
    requires TableInvariant(rows) && AllCompressedPaths(rows)
    requires Delivered(f.mediaStorageSopInstanceUid, o)
    ensures var uid := f.mediaStorageSopInstanceUid;
      Stored(files, rows, auth, f, now, o).rows ==
        SetStatusByPath(Upserted(rows, f, CompressedPath(uid), InProgress, now).0, CompressedPath(uid), Completed)
  {
    var uid := f.mediaStorageSopInstanceUid;
    UpsertPreservesInvariants(rows, f, uid, InProgress, now);
    var rows' := Upserted(rows, f, CompressedPath(uid), InProgress, now).0;
    SetStatusPreservesInvariants(rows', CompressedPath(uid), Completed);
    var completed := SetStatusByPath(rows', CompressedPath(uid), Completed);
    var saved := files[RawPath(uid) := f];
    var normalized := Normalized(saved, RawPath(uid), ConvertedPath(uid), o.codec, o.canWrite).value;
    var compressed := Compressed(normalized, ConvertedPath(uid), CompressedPath(uid), o.codec, o.canWrite).value;
    FailureCleanupKeepsRows(compressed, completed, uid, o.canDelete);
    FailureCleanupKeepsRows(compressed - {RawPath(uid)}, completed, uid, o.canDelete);
    FailureCleanupKeepsRows(compressed - {RawPath(uid)} - {ConvertedPath(uid)}, completed, uid, o.canDelete);
  }

  /** A delivered object whose files can all be removed: Success, none of its
      three files is left on disk, and its row is marked "Completed". */
  lemma DeliveredStoreCleansUp(files: map<string, DicomFile>, rows: seq<Row>, auth: map<int, AuthRow>, f: DicomFile, now: int, o: Oracles)
    requires Delivered(f.mediaStorageSopInstanceUid, o) && Deletable(f.mediaStorageSopInstanceUid, o)
    ensures var uid := f.mediaStorageSopInstanceUid;
      var e := Stored(files, rows, auth, f, now, o);
      && e.response == Answered(Success)
      && e.files == files - {RawPath(uid), ConvertedPath(uid), CompressedPath(uid)}
      && e.rows == SetStatusByPath(Upserted(rows, f, CompressedPath(uid), InProgress, now).0, CompressedPath(uid), Completed)
  {
    var uid := f.mediaStorageSopInstanceUid;
    var saved := files[RawPath(uid) := f];
    var normalized := Normalized(saved, RawPath(uid), ConvertedPath(uid), o.codec, o.canWrite).value;
    var compressed := Compressed(normalized, ConvertedPath(uid), CompressedPath(uid), o.codec, o.canWrite).value;
    assert compressed - {RawPath(uid)} - {ConvertedPath(uid)} - {CompressedPath(uid)}
        == files - {RawPath(uid), ConvertedPath(uid), CompressedPath(uid)};
  }

  /** A delivered object whose compressed file cannot be removed: the catch
      block runs after the row was marked "Completed", finds the other two
      files gone, and the handler still answers Success; the compressed file
      stays on disk. */
  lemma UndeletableCompressedFileStays(files: map<string, DicomFile>, rows: seq<Row>, auth: map<int, AuthRow>, f: DicomFile, now: int, o: Oracles)
    requires Delivered(f.mediaStorageSopInstanceUid, o)
    requires o.canDelete(RawPath(f.mediaStorageSopInstanceUid)) && o.canDelete(ConvertedPath(f.mediaStorageSopInstanceUid))
    requires !o.canDelete(CompressedPath(f.mediaStorageSopInstanceUid))
    ensures var uid := f.mediaStorageSopInstanceUid;
      var e := Stored(files, rows, auth, f, now, o);
      && e.response == Answered(Success)
      && e.files == files[CompressedPath(uid) := CompressedArtifact(NormalizedArtifact(f, o.codec), o.codec)]
                   - {RawPath(uid), ConvertedPath(uid)}
  {
    var uid := f.mediaStorageSopInstanceUid;
    var _ := StoragePaths(uid);
    var saved := files[RawPath(uid) := f];
    var normalized := saved[ConvertedPath(uid) := NormalizedArtifact(f, o.codec)];
    var artifact := CompressedArtifact(NormalizedArtifact(f, o.codec), o.codec);
    var compressed := normalized[CompressedPath(uid) := artifact];
    var rest := compressed - {RawPath(uid)} - {ConvertedPath(uid)};
    assert rest - {RawPath(uid)} - {ConvertedPath(uid)} == rest;
    assert rest == compressed - {RawPath(uid), ConvertedPath(uid)};
    WritesThenDeletes(files, RawPath(uid), ConvertedPath(uid), CompressedPath(uid), f, NormalizedArtifact(f, o.codec), artifact);
  }

  /** The files an undelivered object leaves behind. */
  ghost predicate LeftBehind(files: map<string, DicomFile>, after: map<string, DicomFile>, f: DicomFile, o: Oracles) {
    var uid := f.mediaStorageSopInstanceUid;
    var written := o.canWrite(ConvertedPath(uid)) && o.canWrite(CompressedPath(uid));
    && RawPath(uid) !in after && ConvertedPath(uid) !in after
    && (written ==>
          (CompressedPath(uid) in after &&
           after[CompressedPath(uid)] == CompressedArtifact(NormalizedArtifact(f, o.codec), o.codec)))
    && (!written ==> after == files - {RawPath(uid), ConvertedPath(uid)})
    && (forall p :: p != RawPath(uid) && p != ConvertedPath(uid) && p != CompressedPath(uid) ==>
          (p in after <==> p in files) && (p in files ==> after[p] == files[p]))
  }

  /** An object that is saved but not delivered: because the failure branches
      update by the converted path, the row stays as the upsert left it, "In
      Progress", never "Failed". When the received and the converted file can
      be removed, the handler answers Success, both are deleted, the compressed
      file stays when it was written, and the other files are untouched. */
  lemma UndeliveredStoreStaysInProgress(files: map<string, DicomFile>, rows: seq<Row>, auth: map<int, AuthRow>, f: DicomFile, now: int, o: Oracles)
    requires TableInvariant(rows) && AllCompressedPaths(rows)
    requires o.canWrite(RawPath(f.mediaStorageSopInstanceUid)) && !Delivered(f.mediaStorageSopInstanceUid, o)
    ensures var uid := f.mediaStorageSopInstanceUid;
      var e := Stored(files, rows, auth, f, now, o);
      && e.rows == Upserted(rows, f, CompressedPath(uid), InProgress, now).0
      && (o.canDelete(RawPath(uid)) && o.canDelete(ConvertedPath(uid)) ==>
            e.response == Answered(Success) && LeftBehind(files, e.files, f, o))
  {
    var uid := f.mediaStorageSopInstanceUid;
    UndeliveredStoreRows(files, rows, auth, f, now, o);
    StoreResponses(files, rows, auth, f, now, o);
    if o.canDelete(RawPath(uid)) && o.canDelete(ConvertedPath(uid)) {
      UndeliveredStoreFiles(files, rows, auth, f, now, o);
    }
  }

  lemma UndeliveredStoreRows(files: map<string, DicomFile>, rows: seq<Row>, auth: map<int, AuthRow>, f: DicomFile, now: int, o: Oracles)
    requires TableInvariant(rows) && AllCompressedPaths(rows)
    requires o.canWrite(RawPath(f.mediaStorageSopInstanceUid)) && !Delivered(f.mediaStorageSopInstanceUid, o)
    ensures Stored(files, rows, auth, f, now, o).rows == Upserted(rows, f, CompressedPath(f.mediaStorageSopInstanceUid), InProgress, now).0
  {
    var uid := f.mediaStorageSopInstanceUid;
    UpsertPreservesInvariants(rows, f, uid, InProgress, now);
    var rows' := Upserted(rows, f, CompressedPath(uid), InProgress, now).0;
    var saved := files[RawPath(uid) := f];
    match Normalized(saved, RawPath(uid), ConvertedPath(uid), o.codec, o.canWrite)
    case Err(_) =>
      FailureCleanupKeepsRows(saved, rows', uid, o.canDelete);
    case Ok(normalized) =>
      match Compressed(normalized, ConvertedPath(uid), CompressedPath(uid), o.codec, o.canWrite)
      case Err(_) =>
        FailureCleanupKeepsRows(normalized, rows', uid, o.canDelete);
      case Ok(compressed) =>
        AfterFailedUploadIsFailureCleanup(compressed, rows', uid, o.canDelete);
        FailureCleanupKeepsRows(compressed, rows', uid, o.canDelete);
  }

  lemma UndeliveredStoreFiles(files: map<string, DicomFile>, rows: seq<Row>, auth: map<int, AuthRow>, f: DicomFile, now: int, o: Oracles)
    requires o.canWrite(RawPath(f.mediaStorageSopInstanceUid)) && !Delivered(f.mediaStorageSopInstanceUid, o)
    requires o.canDelete(RawPath(f.mediaStorageSopInstanceUid)) && o.canDelete(ConvertedPath(f.mediaStorageSopInstanceUid))
    ensures LeftBehind(files, Stored(files, rows, auth, f, now, o).files, f, o)
  {
    var uid := f.mediaStorageSopInstanceUid;
    if !o.canWrite(ConvertedPath(uid)) || !o.canWrite(CompressedPath(uid)) {
      NothingCompressedLeftBehind(files, rows, auth, f, now, o);
    } else {
      CompressedFileLeftBehind(files, rows, auth, f, now, o);
    }
  }

  /** Normalisation or compression failed: the catch block runs. */
  lemma NothingCompressedLeftBehind(files: map<string, DicomFile>, rows: seq<Row>, auth: map<int, AuthRow>, f: DicomFile, now: int, o: Oracles)
    requires o.canWrite(RawPath(f.mediaStorageSopInstanceUid))
    requires !o.canWrite(ConvertedPath(f.mediaStorageSopInstanceUid)) || !o.canWrite(CompressedPath(f.mediaStorageSopInstanceUid))
    requires o.canDelete(RawPath(f.mediaStorageSopInstanceUid)) && o.canDelete(ConvertedPath(f.mediaStorageSopInstanceUid))
    ensures var uid := f.mediaStorageSopInstanceUid;
      Stored(files, rows, auth, f, now, o).files == files - {RawPath(uid), ConvertedPath(uid)}
  {
    var uid := f.mediaStorageSopInstanceUid;
    var e := Stored(files, rows, auth, f, now, o);
    var saved := files[RawPath(uid) := f];
    if !o.canWrite(ConvertedPath(uid)) {
      assert e.files == saved - {RawPath(uid)} - {ConvertedPath(uid)};
      assert saved - {RawPath(uid)} - {ConvertedPath(uid)} == files - {RawPath(uid), ConvertedPath(uid)};
    } else {
      var normalized := saved[ConvertedPath(uid) := NormalizedArtifact(f, o.codec)];
      assert e.files == normalized - {RawPath(uid)} - {ConvertedPath(uid)};
      assert normalized - {RawPath(uid)} - {ConvertedPath(uid)} == files - {RawPath(uid), ConvertedPath(uid)};
    }
  }

  /** Both files were written but the upload failed. */
  lemma CompressedFileLeftBehind(files: map<string, DicomFile>, rows: seq<Row>, auth: map<int, AuthRow>, f: DicomFile, now: int, o: Oracles)
    requires o.canWrite(RawPath(f.mediaStorageSopInstanceUid)) && !Delivered(f.mediaStorageSopInstanceUid, o)
    requires o.canWrite(ConvertedPath(f.mediaStorageSopInstanceUid)) && o.canWrite(CompressedPath(f.mediaStorageSopInstanceUid))
    requires o.canDelete(RawPath(f.mediaStorageSopInstanceUid)) && o.canDelete(ConvertedPath(f.mediaStorageSopInstanceUid))
    ensures var uid := f.mediaStorageSopInstanceUid;
      Stored(files, rows, auth, f, now, o).files ==
        files[CompressedPath(uid) := CompressedArtifact(NormalizedArtifact(f, o.codec), o.codec)] - {RawPath(uid), ConvertedPath(uid)}
  {
    var uid := f.mediaStorageSopInstanceUid;
    var _ := StoragePaths(uid);
    var saved := files[RawPath(uid) := f];
    var normalized := saved[ConvertedPath(uid) := NormalizedArtifact(f, o.codec)];
    var artifact := CompressedArtifact(NormalizedArtifact(f, o.codec), o.codec);
    var compressed := normalized[CompressedPath(uid) := artifact];
    var rows' := Upserted(rows, f, CompressedPath(uid), InProgress, now).0;
    assert Processed(saved, rows', auth, uid, o) == AfterFailedUpload(compressed, rows', uid, o.canDelete);
    assert compressed - {RawPath(uid)} - {ConvertedPath(uid)} == compressed - {RawPath(uid), ConvertedPath(uid)};
    WritesThenDeletes(files, RawPath(uid), ConvertedPath(uid), CompressedPath(uid), f, NormalizedArtifact(f, o.codec), artifact);
  }

  /** Writing three distinct keys and deleting the first two leaves the third. */
  lemma WritesThenDeletes<K, V>(m: map<K, V>, a: K, b: K, c: K, x: V, y: V, z: V)
    requires a != c && b != c
    ensures m[a := x][b := y][c := z] - {a, b} == m[c := z] - {a, b}
  {
  }

  /** A C-STORE keeps the table invariant, keeps every row's file_path a
      compressed path, and never produces a "Failed" row. */
  lemma StorePreservesInvariants(files: map<string, DicomFile>, rows: seq<Row>, auth: map<int, AuthRow>, f: DicomFile, now: int, o: Oracles)
    requires TableInvariant(rows) && AllCompressedPaths(rows)
    ensures var e := Stored(files, rows, auth, f, now, o);
      && TableInvariant(e.rows) && AllCompressedPaths(e.rows)
      && (NoFailedRows(rows) ==> NoFailedRows(e.rows))
  {
    var uid := f.mediaStorageSopInstanceUid;
    if o.canWrite(RawPath(uid)) {
      UpsertPreservesInvariants(rows, f, uid, InProgress, now);
      var upserted := Upserted(rows, f, CompressedPath(uid), InProgress, now).0;
      SetStatusPreservesInvariants(upserted, CompressedPath(uid), Completed);
      if Delivered(uid, o) {
        DeliveredStoreRows(files, rows, auth, f, now, o);
      } else {
        UndeliveredStoreRows(files, rows, auth, f, now, o);
      }
    }
  }
}
