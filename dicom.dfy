/** The DICOM vocabulary the receiver works with: transfer syntaxes, the data
    elements it reads, a received file, and the codec (fo-dicom's DicomFile.Open
    and DicomTranscoder) seen as an oracle whose answers the caller supplies. */
module Dicom {
  import opened Wrappers

  datatype TransferSyntax =
    | ImplicitVRLittleEndian
    | ExplicitVRLittleEndian
    | ExplicitVRBigEndian
    | DeflatedExplicitVRLittleEndian
    | JPEGProcess1
    | JPEGProcess14SV1
    | JPEGLSLossless
    | JPEGLSNearLossless
    | JPEG2000Lossless
    | JPEG2000Lossy
    | RLELossless

  /** Encapsulated syntaxes carry their pixel data in fragments; the four native
      (uncompressed) syntaxes do not. */
  predicate IsEncapsulated(ts: TransferSyntax) {
    !(ts.ImplicitVRLittleEndian? || ts.ExplicitVRLittleEndian? ||
      ts.ExplicitVRBigEndian? || ts.DeflatedExplicitVRLittleEndian?)
  }

  /** The data elements the receiver copies into the metadata table. */
  datatype Tag =
    | PatientID | PatientName | PatientSex | PatientAge
    | StudyInstanceUID | SeriesInstanceUID | SOPInstanceUID
    | StudyDate | StudyTime | Modality | Manufacturer | InstitutionName

  /** A DICOM file: the SOP Instance UID of its file meta information (which names
      the files on disk), the transfer syntax of its data set, and its data
      elements. An element mapped to None is present but holds no single value. */
  datatype DicomFile = DicomFile(
    mediaStorageSopInstanceUid: string,
    syntax: TransferSyntax,
    dataset: map<Tag, Option<string>>)

  /** What one transcoding attempt yields: a new file, fo-dicom's
      NotSupportedException, or any other exception. */
  datatype CodecResult = Transcoded(file: DicomFile) | NotSupported | CodecFailure

  /** The codec as an oracle: whether DicomFile.Open can load a file, and what
      DicomTranscoder.Transcode does with a file and a target syntax. */
  datatype Codec = Codec(
    opens: DicomFile -> bool,
    transcode: (DicomFile, TransferSyntax) -> CodecResult)

  /** A codec that labels its output with the syntax it was asked for. */
  ghost predicate HonoursTarget(codec: Codec) {
    forall f, ts :: codec.transcode(f, ts).Transcoded? ==> codec.transcode(f, ts).file.syntax == ts
  }
}
