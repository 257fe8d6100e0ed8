/** The local disk as a map from path to file contents. Writes may fail (a full
    disk, a locked file); `canWrite` is the oracle that says which paths accept
    a write. Deletes may fail too (a file in use, access denied); `canDelete`
    says which files can be removed. File.Delete does not fail on a missing
    file. */
module Files {
  import opened Wrappers
  import opened Dicom

  datatype FileError = FileNotFound(path: string) | WriteFailed(path: string) | DeleteFailed(path: string)

  /** File.Delete as a function of the disk: the file is gone, or it exists,
      cannot be removed, and the call throws. */
  function Deleted(files: map<string, DicomFile>, path: string, canDelete: string -> bool)
    : (r: Result<map<string, DicomFile>, FileError>)
    ensures r.Err? <==> path in files && !canDelete(path)
    ensures r.Err? ==> r.error == DeleteFailed(path)
    ensures r.Ok? ==> path !in r.value && forall p :: p != path ==> (p in r.value <==> p in files)
    ensures r.Ok? ==> forall p :: p in r.value ==> r.value[p] == files[p]
  {
    if path in files && !canDelete(path) then Err(DeleteFailed(path)) else Ok(files - {path})
  }

  class Disk {
    var files: map<string, DicomFile>

    constructor (initial: map<string, DicomFile>)
      ensures files == initial
    {
      files := initial;
    }

    /** DicomFile.Save: writes (or overwrites) `path`. */
    method Save(path: string, f: DicomFile, canWrite: string -> bool) returns (r: Outcome<FileError>)
      modifies this
      ensures canWrite(path) ==> r == Pass && files == old(files)[path := f]
      ensures !canWrite(path) ==> r == Fail(WriteFailed(path)) && files == old(files)
    {
      if canWrite(path) {
        files := files[path := f];
        r := Pass;
      } else {
        r := Fail(WriteFailed(path));
      }
    }

    /** File.Copy(source, dest, overwrite: true). */
    method Copy(source: string, dest: string, canWrite: string -> bool) returns (r: Outcome<FileError>)
      modifies this
      ensures source !in old(files) ==> r == Fail(FileNotFound(source)) && files == old(files)
      ensures source in old(files) && !canWrite(dest) ==> r == Fail(WriteFailed(dest)) && files == old(files)
      ensures source in old(files) && canWrite(dest) ==> r == Pass && files == old(files)[dest := old(files)[source]]
    {
      if source !in files {
        r := Fail(FileNotFound(source));
      } else if !canWrite(dest) {
        r := Fail(WriteFailed(dest));
      } else {
        files := files[dest := files[source]];
        r := Pass;
      }
    }

    /** File.Delete: removes `path` if it exists; throws, changing nothing,
        when the file exists but cannot be removed. */
    method Delete(path: string, canDelete: string -> bool) returns (r: Outcome<FileError>)
      modifies this
      ensures path in old(files) && !canDelete(path) ==> r == Fail(DeleteFailed(path)) && files == old(files)
      ensures path !in old(files) || canDelete(path) ==> r == Pass && files == old(files) - {path}
    {
      if path in files && !canDelete(path) {
        r := Fail(DeleteFailed(path));
      } else {
        files := files - {path};
        r := Pass;
      }
    }
  }
}
