/** The upload to the remote archive, seen from the caller: a multipart POST of
    one file with the branch and client identifiers. The HTTP exchange itself is
    an oracle outcome. */
module Relay {
  import opened Wrappers
  import opened Dicom

  const ArchiveUrl: string := "https://api.smaro.app/api/console/orthanc/upload"

  /** What the POST produced: a response with a status code, or an exception. */
  datatype HttpOutcome = Responded(statusCode: int) | TransportError

  /** HttpResponseMessage.IsSuccessStatusCode. */
  predicate IsSuccessStatusCode(code: int) {
    200 <= code <= 299
  }

  predicate Uploaded(http: HttpOutcome) {
    http.Responded? && IsSuccessStatusCode(http.statusCode)
  }

  /** The multipart body: part `file` (named after the local file), `branch_id`
      and `client_id`. */
  datatype UploadRequest = UploadRequest(
    url: string, fileName: string, content: DicomFile, branchId: int, clientId: int)

  /** An upload attempt: the request actually posted, if any, and whether the
      method reported success. */
  datatype Upload = Upload(posted: Option<UploadRequest>, sent: bool)

  predicate IsSeparator(c: char) {
    c == '\\' || c == '/'
  }

  /** Path.GetFileName: the part of `path` after its last separator. */
  function FileName(path: string): (name: string)
    ensures |name| <= |path| && name == path[|path| - |name|..]
    ensures forall i :: 0 <= i < |name| ==> !IsSeparator(name[i])
    ensures |name| < |path| ==> IsSeparator(path[|path| - |name| - 1])
    decreases |path|
  {
    if path == [] then []
    else if IsSeparator(path[|path| - 1]) then []
    else FileName(path[..|path| - 1]) + [path[|path| - 1]]
  }
}
