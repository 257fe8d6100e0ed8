/** ViewReports: the reports window. It lists the dicom_metadata rows newest
    first with serial numbers, pages a report list twenty at a time, starts and
    stops the DICOM server, and retries the upload of one file by hand. */
module ViewReports {
  import opened Wrappers
  import opened Dicom
  import opened Files
  import opened Relay
  import opened Metadata
  import opened DatabaseHelper
  import DicomReceiver

  const RowsPerPage: int := 20

  /** One line of the data grid. */
  datatype Report = Report(
    serialNo: int,
    patientName: string,
    patientId: string,
    gender: string,
    age: string,
    studyInstanceUid: string,
    modality: string,
    manufacturer: string,
    institutionName: string,
    status: string,
    filePath: string,
    receivedAt: int,
    imageCount: int)

  /** The report shown for a row, with its serial number. */
  function ToReport(row: Row, serialNo: int): Report {
    Report(serialNo, row.patientName, row.patientId, row.gender, row.age, row.studyInstanceUid,
           row.modality, row.manufacturer, row.institutionName, row.status, row.filePath,
           row.receivedAt, row.imageCount)
  }

  // ---------------------------------------------------------------------------
  // ORDER BY received_at DESC

  predicate SortedByReceivedDesc(rows: seq<Row>) {
    forall i, j :: 0 <= i < j < |rows| ==> rows[i].receivedAt >= rows[j].receivedAt
  }

  /** Places `r` before the first row it is not older than. */
  function InsertByReceived(r: Row, sorted: seq<Row>): (s: seq<Row>)
    ensures multiset(s) == multiset(sorted) + multiset{r}
    ensures |s| == |sorted| + 1
  {
    if sorted == [] then [r]
    else if r.receivedAt >= sorted[0].receivedAt then [r] + sorted
    else
      assert sorted == [sorted[0]] + sorted[1..];
      [sorted[0]] + InsertByReceived(r, sorted[1..])
  }

  lemma {:induction false} InsertKeepsSorted(r: Row, sorted: seq<Row>)
    requires SortedByReceivedDesc(sorted)
    ensures SortedByReceivedDesc(InsertByReceived(r, sorted))
  {
    if sorted != [] && r.receivedAt < sorted[0].receivedAt {
      InsertKeepsSorted(r, sorted[1..]);
      var rest := InsertByReceived(r, sorted[1..]);
      forall j | 0 <= j < |rest|
        ensures rest[j].receivedAt <= sorted[0].receivedAt
      {
        assert rest[j] in multiset(rest);
        if rest[j] != r {
          assert rest[j] in sorted[1..];
        }
      }
    }
  }

  /** The rows newest first; among equal timestamps the older insertion comes
      first. */
  function OrderByReceivedDesc(rows: seq<Row>): (sorted: seq<Row>)
    ensures SortedByReceivedDesc(sorted)
    ensures multiset(sorted) == multiset(rows)
    ensures |sorted| == |rows|
  {
    if rows == [] then []
    else
      assert rows == [rows[0]] + rows[1..];
      InsertKeepsSorted(rows[0], OrderByReceivedDesc(rows[1..]));
      InsertByReceived(rows[0], OrderByReceivedDesc(rows[1..]))
  }

  /** The reports LoadData builds: the rows newest first, numbered 1..n. */
  function LoadedReports(rows: seq<Row>): (reports: seq<Report>)
    ensures |reports| == |rows|
  {
    var sorted := OrderByReceivedDesc(rows);
    seq(|rows|, i requires 0 <= i < |rows| => ToReport(sorted[i], i + 1))
  }

  /** Every row gets a report. */
  lemma EveryRowIsReported(rows: seq<Row>, k: int)
    requires 0 <= k < |rows|
    ensures exists i :: 0 <= i < |rows| && LoadedReports(rows)[i] == ToReport(rows[k], i + 1)
  {
    var sorted := OrderByReceivedDesc(rows);
    assert rows[k] in multiset(sorted);
    var i :| 0 <= i < |sorted| && sorted[i] == rows[k];
    assert LoadedReports(rows)[i] == ToReport(sorted[i], i + 1);
  }

  /** Every report comes from a row. */
  lemma EveryReportIsARow(rows: seq<Row>, i: int)
    requires 0 <= i < |rows|
    ensures exists k :: 0 <= k < |rows| && LoadedReports(rows)[i] == ToReport(rows[k], i + 1)
  {
    var sorted := OrderByReceivedDesc(rows);
    assert sorted[i] in multiset(rows);
    var k :| 0 <= k < |rows| && rows[k] == sorted[i];
    assert LoadedReports(rows)[i] == ToReport(rows[k], i + 1);
  }

  /** The reader loop of LoadData: one report per row, in query order, with
      SerialNo = index++ starting at 1. */
  method ReadReports(rows: seq<Row>) returns (reports: seq<Report>)
    ensures reports == LoadedReports(rows)
    ensures |reports| == |rows|
    ensures forall i :: 0 <= i < |reports| ==> reports[i].serialNo == i + 1
    ensures forall i, j :: 0 <= i < j < |reports| ==> reports[i].receivedAt >= reports[j].receivedAt
  {
    ghost var all := LoadedReports(rows);
    var sorted := OrderByReceivedDesc(rows);
    reports := [];
    var index := 1;
    while index <= |sorted|
      invariant 1 <= index <= |sorted| + 1
      invariant reports == all[..index - 1]
    {
      reports := reports + [ToReport(sorted[index - 1], index)];
      index := index + 1;
    }
    assert all[..|all|] == all;
  }

  // ---------------------------------------------------------------------------
  // Paging

  /** Enumerable.Skip: a negative count skips nothing. */
  function Skip(s: seq<Report>, n: int): (r: seq<Report>)
    ensures n <= 0 ==> r == s
    ensures n >= |s| ==> r == []
    ensures 0 <= n <= |s| ==> r == s[n..]
  {
    if n <= 0 then s else if n >= |s| then [] else s[n..]
  }

  /** Enumerable.Take: at most n items from the front. */
  function Take(s: seq<Report>, n: int): (r: seq<Report>)
    ensures |r| <= |s| && (n >= 0 ==> |r| <= n)
    ensures r == s[..|r|]
    ensures n >= |s| ==> r == s
    ensures 0 <= n <= |s| ==> |r| == n
  {
    if n <= 0 then [] else if n >= |s| then s else s[..n]
  }

  /** `_allReports.Skip((page - 1) * 20).Take(20)`. */
  function PageOf(all: seq<Report>, page: int): (p: seq<Report>)
  {
    Take(Skip(all, (page - 1) * RowsPerPage), RowsPerPage)
  }

  /** A page holds the reports at [(page - 1) * 20, (page - 1) * 20 + 20) of
      the full list, as many as there are. */
  lemma PageWindow(all: seq<Report>, page: int)
    requires page >= 1
    ensures var start := (page - 1) * RowsPerPage;
      && |PageOf(all, page)| == (if |all| <= start then 0 else if |all| - start < RowsPerPage then |all| - start else RowsPerPage)
      && forall i :: 0 <= i < |PageOf(all, page)| ==> PageOf(all, page)[i] == all[start + i]
  {
  }

  /** The number of pages: Math.Ceiling(count / 20.0), as integer division. */
  function PageCount(n: nat): (pages: nat)
    ensures pages * RowsPerPage >= n
    ensures pages > 0 ==> (pages - 1) * RowsPerPage < n
    ensures pages == 0 <==> n == 0
  {
    (n + RowsPerPage - 1) / RowsPerPage
  }

  /** Every report is on exactly the page its position gives, and the pages up
      to the page count are all non-empty. */
  lemma ReportOnItsPage(all: seq<Report>, k: int)
    requires 0 <= k < |all|
    ensures var page := k / RowsPerPage + 1;
      && 1 <= page <= PageCount(|all|)
      && k % RowsPerPage < |PageOf(all, page)|
      && PageOf(all, page)[k % RowsPerPage] == all[k]
  {
    PageWindow(all, k / RowsPerPage + 1);
  }

  lemma PagesWithinCountAreNonEmpty(all: seq<Report>, page: int)
    requires 1 <= page <= PageCount(|all|)
    ensures |PageOf(all, page)| > 0
  {
    PageWindow(all, page);
  }

  // ---------------------------------------------------------------------------
  // The window's status update and upload

  /** The window's UpdateStatusInDatabase: sets `status` of the rows at `path`,
      and raises their image_count by one only for "Completed". */
  function SetStatusCountingCompleted(rows: seq<Row>, path: string, status: string): (after: seq<Row>)
  {
    seq(|rows|, i requires 0 <= i < |rows| =>
      if rows[i].filePath != path then rows[i]
      else if status == Completed then rows[i].(status := status, imageCount := rows[i].imageCount + 1)
      else rows[i].(status := status))
  }

  /** Against the receiver's update: the same for every status but
      "Completed", which in addition counts one more image. */
  lemma CountingUpdateAgainstReceiverUpdate(rows: seq<Row>, path: string, status: string)
    ensures var after := SetStatusCountingCompleted(rows, path, status);
      var plain := DicomReceiver.SetStatusByPath(rows, path, status);
      && |after| == |plain| == |rows|
      && (status != Completed ==> after == plain)
      && (status == Completed ==> forall i :: 0 <= i < |rows| ==>
            after[i] == if rows[i].filePath == path then plain[i].(imageCount := rows[i].imageCount + 1) else rows[i])
  {
  }

  /** The update keeps the table invariant, since counts only grow. */
  lemma CountingUpdatePreservesInvariant(rows: seq<Row>, path: string, status: string)
    requires TableInvariant(rows)
    ensures TableInvariant(SetStatusCountingCompleted(rows, path, status))
  {
    var after := SetStatusCountingCompleted(rows, path, status);
    assert forall i :: 0 <= i < |rows| ==>
      after[i].patientId == rows[i].patientId && after[i].studyInstanceUid == rows[i].studyInstanceUid
      && after[i].imageCount >= rows[i].imageCount;
  }

  /** The window's SendDicomFileToOrthanc: nothing is posted when the auth row
      is missing, when one of its identifiers is NULL (reading it throws), when
      the database cannot be read or the file cannot be opened; otherwise the
      file is posted with the row's identifiers and the result is whether the
      status code was a success code. */
  function SendDicomFileToOrthanc(auth: map<int, AuthRow>, readable: bool, files: map<string, DicomFile>, path: string, http: HttpOutcome)
    : (u: Upload)
    ensures !readable || AuthRowId !in auth ==> u == Upload(None, false)
    ensures u.posted.Some? <==>
      readable && AuthRowId in auth && auth[AuthRowId].branchId.Some? && auth[AuthRowId].clientId.Some? && path in files
    ensures u.posted.Some? ==> u.posted.value == UploadRequest(ArchiveUrl, FileName(path), files[path],
      auth[AuthRowId].branchId.value, auth[AuthRowId].clientId.value)
    ensures u.sent <==> u.posted.Some? && Uploaded(http)
  {
    if !readable || AuthRowId !in auth then Upload(None, false)
    else
      var row := auth[AuthRowId];
      if row.branchId.None? || row.clientId.None? || path !in files then Upload(None, false)
      else Upload(Some(UploadRequest(ArchiveUrl, FileName(path), files[path], row.branchId.value, row.clientId.value)),
                  Uploaded(http))
  }

  /** The statuses RetryFile writes, in order. */
  function RetryStatuses(sent: bool): (written: seq<string>)
    ensures |written| == 2 && written[0] == InProgress
    ensures written[1] == (if sent then Completed else Failed)
  {
    [InProgress, if sent then Completed else Failed]
  }

  /** The table after RetryFile: the rows at `path` end "Completed" with one
      more image, or "Failed" with their count unchanged; other rows are not
      touched. */
  lemma RetryNetEffect(rows: seq<Row>, path: string, sent: bool)
    ensures var after := SetStatusCountingCompleted(SetStatusCountingCompleted(rows, path, InProgress), path,
                                                    RetryStatuses(sent)[1]);
      && |after| == |rows|
      && forall i :: 0 <= i < |rows| ==>
           after[i] == if rows[i].filePath != path then rows[i]
                       else if sent then rows[i].(status := Completed, imageCount := rows[i].imageCount + 1)
                       else rows[i].(status := Failed)
  {
  }

  // ---------------------------------------------------------------------------
  // The window

  /** What the data grid is bound to: nothing yet, the list LoadData built, or
      the window's paged collection (bound by reference, so it shows its later
      contents). */
  datatype GridSource = Unbound | LoadedList(reports: seq<Report>) | PagedCollection

  /** The running server, listening on a port. */
  datatype Server = Server(port: int)

  /** The message boxes of the server toggle. */
  datatype ServerNotice =
    | Listening(port: int)
    | AlreadyRunning(port: int)
    | PortNotFound
    | DatabaseError
    | ErrorOccurred
    | Stopped
    | NotRunning
    | StopError

  /** The "Page x of y" text. */
  datatype PageInfo = PageInfo(current: int, total: int)

  const StartServerLabel: string := "Start Server"
  const StopServerLabel: string := "Stop Server"

  class ReportsWindow {
    const db: Database
    const disk: Disk
    var currentPage: int
    var allReports: seq<Report>
    var pagedReports: seq<Report>
    var pageInfo: Option<PageInfo>
    var grid: GridSource
    var server: Option<Server>
    var toggleLabel: string

    /** The page stays between 1 and the page count (or 1 when there is no
        page). */
    ghost predicate Valid()
      reads this
    {
      1 <= currentPage && (currentPage == 1 || currentPage <= PageCount(|allReports|))
    }

    /** The constructor loads the grid and then purges the rows older than a
        day, so the first grid can still show rows the purge removes.
        `_allReports` starts empty and nothing in the window fills it. */
    constructor (db: Database, disk: Disk, now: int, reachable: bool)
      requires db.Valid()
      modifies db`metadata
      ensures Valid()
      ensures this.db == db && this.disk == disk
      ensures currentPage == 1 && allReports == [] && pagedReports == [] && pageInfo == None
      ensures server == None && toggleLabel == StartServerLabel
      ensures reachable && DicomMetadata in db.schema ==> grid == LoadedList(LoadedReports(old(db.metadata)))
      ensures !(reachable && DicomMetadata in db.schema) ==> grid == Unbound
      ensures db.Valid()
      ensures db.metadata == if reachable && DicomMetadata in db.schema then Purged(old(db.metadata), now) else old(db.metadata)
    {
      this.db := db;
      this.disk := disk;
      currentPage := 1;
      allReports := [];
      pagedReports := [];
      pageInfo := None;
      server := None;
      toggleLabel := StartServerLabel;
      // LoadData(), before the window object is complete
      if reachable && DicomMetadata in db.schema {
        var reports := ReadReports(db.metadata);
        grid := LoadedList(reports);
      } else {
        grid := Unbound;
      }
      db.DeleteOldRecords(now, reachable);
    }

    /** LoadData: binds the grid to every row, newest first, numbered from 1.
        A failing connection or query (`readable` false, or the table missing)
        is caught and changes nothing. */
    method LoadData(readable: bool)
      modifies this`grid
      ensures readable && DicomMetadata in db.schema ==> grid == LoadedList(LoadedReports(db.metadata))
      ensures !(readable && DicomMetadata in db.schema) ==> grid == old(grid)
    {
      if readable && DicomMetadata in db.schema {
        var reports := ReadReports(db.metadata);
        grid := LoadedList(reports);
      }
    }

    /** Window_Loaded: binds the grid to the paged collection and fills it. */
    method WindowLoaded()
      requires Valid()
      modifies this`grid, this`pagedReports, this`pageInfo
      ensures Valid()
      ensures grid == PagedCollection
      ensures pagedReports == PageOf(allReports, currentPage)
      ensures pageInfo == Some(PageInfo(currentPage, PageCount(|allReports|)))
    {
      grid := PagedCollection;
      LoadPagedReports();
    }

    /** LoadPagedReports: clears the paged collection and adds the current
        page's reports one by one. */
    method LoadPagedReports()
      modifies this`pagedReports, this`pageInfo
      ensures pagedReports == PageOf(allReports, currentPage)
      ensures pageInfo == Some(PageInfo(currentPage, PageCount(|allReports|)))
    {
      var skip := (currentPage - 1) * RowsPerPage;
      var pagedData := Take(Skip(allReports, skip), RowsPerPage);
      pagedReports := [];
      for i := 0 to |pagedData|
        invariant pagedReports == pagedData[..i]
      {
        pagedReports := pagedReports + [pagedData[i]];
      }
      pageInfo := Some(PageInfo(currentPage, PageCount(|allReports|)));
    }

    /** PreviousPage_Click: goes back a page unless on the first. */
    method PreviousPage()
      requires Valid()
      modifies this`currentPage, this`pagedReports, this`pageInfo
      ensures Valid()
      ensures currentPage == if old(currentPage) > 1 then old(currentPage) - 1 else old(currentPage)
      ensures old(currentPage) > 1 ==> pagedReports == PageOf(allReports, currentPage)
      ensures old(currentPage) <= 1 ==> pagedReports == old(pagedReports) && pageInfo == old(pageInfo)
    {
      if currentPage > 1 {
        currentPage := currentPage - 1;
        LoadPagedReports();
      }
    }

    /** NextPage_Click: goes forward a page while below the page count. */
    method NextPage()
      requires Valid()
      modifies this`currentPage, this`pagedReports, this`pageInfo
      ensures Valid()
      ensures currentPage == if old(currentPage) < PageCount(|allReports|) then old(currentPage) + 1 else old(currentPage)
      ensures old(currentPage) < PageCount(|allReports|) ==>
        pagedReports == PageOf(allReports, currentPage) && |pagedReports| > 0
      ensures old(currentPage) >= PageCount(|allReports|) ==> pagedReports == old(pagedReports) && pageInfo == old(pageInfo)
    {
      if currentPage < PageCount(|allReports|) {
        currentPage := currentPage + 1;
        LoadPagedReports();
        PagesWithinCountAreNonEmpty(allReports, currentPage);
      }
    }

    /** StartDicomServer: reads the port of auth row 1 and starts a server on
        it, unless one is already running. `readable` is whether the
        connection opens; `bindOk` is whether the server can listen on the
        port. A connection that cannot be opened or a missing auth table is a
        SQLite error, caught by the first catch block; a NULL port or a
        failing bind is caught by the second. */
    method StartDicomServer(readable: bool, bindOk: bool) returns (notice: ServerNotice)
      modifies this`server, this`toggleLabel
      ensures !readable || Auth !in db.schema ==>
        notice == DatabaseError && server == old(server) && toggleLabel == old(toggleLabel)
      ensures readable && Auth in db.schema && AuthRowId !in db.auth ==>
        notice == PortNotFound && server == old(server) && toggleLabel == old(toggleLabel)
      ensures readable && Auth in db.schema && AuthRowId in db.auth && db.auth[AuthRowId].port.None? ==>
        notice == ErrorOccurred && server == old(server) && toggleLabel == old(toggleLabel)
      ensures readable && Auth in db.schema && AuthRowId in db.auth && db.auth[AuthRowId].port.Some? ==>
        var port := db.auth[AuthRowId].port.value;
        && (old(server).Some? ==> notice == AlreadyRunning(port) && server == old(server) && toggleLabel == old(toggleLabel))
        && (old(server).None? && !bindOk ==> notice == ErrorOccurred && server == None && toggleLabel == old(toggleLabel))
        && (old(server).None? && bindOk ==> notice == Listening(port) && server == Some(Server(port)) && toggleLabel == StopServerLabel)
    {
      if !readable || Auth !in db.schema {
        return DatabaseError;
      }
      if AuthRowId !in db.auth {
        return PortNotFound;
      }
      var result := db.auth[AuthRowId].port;
      if result.None? {
        // Convert.ToInt32(DBNull.Value) throws
        return ErrorOccurred;
      }
      var port := result.value;
      if server.Some? {
        return AlreadyRunning(port);
      }
      if !bindOk {
        return ErrorOccurred;
      }
      server := Some(Server(port));
      notice := Listening(port);
      toggleLabel := StopServerLabel;
    }

    /** StopDicomServer: disposes the server and forgets it; "not running"
        when there is none. `disposeOk` is whether Dispose returns normally. */
    method StopDicomServer(disposeOk: bool) returns (notice: ServerNotice)
      modifies this`server, this`toggleLabel
      ensures old(server).None? ==> notice == NotRunning && server == None && toggleLabel == old(toggleLabel)
      ensures old(server).Some? && disposeOk ==> notice == Stopped && server == None && toggleLabel == StartServerLabel
      ensures old(server).Some? && !disposeOk ==> notice == StopError && server == old(server) && toggleLabel == old(toggleLabel)
    {
      if server.Some? {
        if disposeOk {
          server := None;
          notice := Stopped;
          toggleLabel := StartServerLabel;
        } else {
          notice := StopError;
        }
      } else {
        notice := NotRunning;
      }
    }

    /** ServerToggleButton_Click: starts when no server is held, stops
        otherwise. The label is set from the branch taken, not from the
        outcome, so a failed start still reads "Stop Server". */
    method ServerToggle(readable: bool, bindOk: bool, disposeOk: bool) returns (notice: ServerNotice)
      modifies this`server, this`toggleLabel
      ensures old(server).None? ==> toggleLabel == StopServerLabel && (server.Some? <==> notice.Listening?)
      ensures old(server).Some? ==> toggleLabel == StartServerLabel && (server.None? <==> disposeOk)
    {
      if server.None? {
        notice := StartDicomServer(readable, bindOk);
        toggleLabel := StopServerLabel;
      } else {
        notice := StopDicomServer(disposeOk);
        toggleLabel := StartServerLabel;
      }
    }

    /** The window's UpdateStatusInDatabase. */
    method UpdateStatusInDatabase(path: string, status: string)
      requires db.Valid()
      modifies db`metadata
      ensures db.Valid()
      ensures db.metadata == SetStatusCountingCompleted(old(db.metadata), path, status)
    {
      CountingUpdatePreservesInvariant(db.metadata, path, status);
      db.metadata := SetStatusCountingCompleted(db.metadata, path, status);
    }

    /** RetryFile: marks the file's rows "In Progress", uploads the file, then
        marks them "Completed" (one more image) and deletes the file, or marks
        them "Failed" and keeps it; finally reloads the grid. A delete that
        throws leaves the method before the reload. */
    method RetryFile(filePath: string, authReadable: bool, http: HttpOutcome, canDelete: string -> bool)
      returns (r: Outcome<FileError>)
      requires db.Valid() && DicomMetadata in db.schema
      modifies db`metadata, disk, this`grid
      ensures db.Valid()
      ensures var u := SendDicomFileToOrthanc(db.auth, authReadable, old(disk.files), filePath, http);
        && db.metadata == SetStatusCountingCompleted(SetStatusCountingCompleted(old(db.metadata), filePath, InProgress), filePath, RetryStatuses(u.sent)[1])
        && (!u.sent ==> r == Pass && disk.files == old(disk.files))
        && (u.sent ==> match Deleted(old(disk.files), filePath, canDelete)
                       case Ok(remaining) => r == Pass && disk.files == remaining
                       case Err(e) => r == Fail(e) && disk.files == old(disk.files))
      ensures r.Pass? ==> grid == LoadedList(LoadedReports(db.metadata))
      ensures r.Fail? ==> grid == old(grid)
    {
      UpdateStatusInDatabase(filePath, InProgress);
      var upload := SendDicomFileToOrthanc(db.auth, authReadable, disk.files, filePath, http);
      r := Pass;
      if upload.sent {
        UpdateStatusInDatabase(filePath, Completed);
        r := disk.Delete(filePath, canDelete);
        if r.Fail? {
          return;
        }
      } else {
        UpdateStatusInDatabase(filePath, Failed);
      }
      LoadData(true);
    }
  }
}
