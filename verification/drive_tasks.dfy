/** The export-task polling and the Drive file selection of `fetch_drive.py`,
    with the Earth Engine task and the Drive service replaced by what they
    report: the sequence of task states one poll after another, and the
    files the Drive holds in the order a listing returns them. */
module DriveTasks {
  import opened Wrappers

  /** The task states that end `check_task_status`'s loop. */
  const Completed: string := "COMPLETED"
  const Failed: string := "FAILED"
  const Cancelled: string := "CANCELLED"

  predicate IsTerminal(state: string)
  {
    state == Completed || state == Failed || state == Cancelled
  }

  /** How far polling got on a finite run of observed states: the task ended
      (successfully or not) after `polls` status reads, or every state seen
      so far was non-terminal and the loop is still sleeping and polling. */
  datatype PollOutcome = Finished(succeeded: bool, polls: nat) | StillPolling

  /** `check_task_status`: `observed[i]` is the state the `i`-th call to
      `task.status()` reports. The loop stops at the first terminal state and
      reports success only for `COMPLETED`; every other state means another
      sleep and another poll. */
  function CheckTaskStatus(observed: seq<string>): (o: PollOutcome)
    ensures o.Finished? <==> exists i :: 0 <= i < |observed| && IsTerminal(observed[i])
    ensures o.Finished? ==>
      && 1 <= o.polls <= |observed|
      && IsTerminal(observed[o.polls - 1])
      && (forall i :: 0 <= i < o.polls - 1 ==> !IsTerminal(observed[i]))
      && (o.succeeded <==> observed[o.polls - 1] == Completed)
  {
    if |observed| == 0 then StillPolling
    else if observed[0] == Completed then Finished(true, 1)
    else if observed[0] in [Failed, Cancelled] then Finished(false, 1)
    else
      match CheckTaskStatus(observed[1..])
      case Finished(ok, n) => Finished(ok, n + 1)
      case StillPolling => StillPolling
  }

  /** Once the task has ended, whatever it would report later is never read. */
  lemma {:induction false} PollingStopsAtTerminal(observed: seq<string>, later: seq<string>)
    requires CheckTaskStatus(observed).Finished?
    ensures CheckTaskStatus(observed + later) == CheckTaskStatus(observed)
  {
    var all := observed + later;
    assert all[0] == observed[0];
    if !IsTerminal(observed[0]) {
      assert all[1..] == observed[1..] + later;
      PollingStopsAtTerminal(observed[1..], later);
    }
  }

  /** A Drive entry with the fields the queries and the selection read. */
  datatype DriveFile = DriveFile(title: string, id: string, mimeType: string, parents: seq<string>, trashed: bool)

  const FolderMimeType: string := "application/vnd.google-apps.folder"
  const TifSuffix: string := ".tif"

  /** The two listing queries of `fetch_drive.py`: a folder by title under a
      parent, skipping the trash; and the non-folder entries of a folder
      (trashed ones included, as that query does not exclude them). */
  datatype Query = FolderNamed(name: string, parentId: string) | FilesIn(folderId: string)

  predicate Matches(q: Query, f: DriveFile)
  {
    match q
    case FolderNamed(name, parentId) =>
      f.title == name && f.mimeType == FolderMimeType && parentId in f.parents && !f.trashed
    case FilesIn(folderId) =>
      folderId in f.parents && f.mimeType != FolderMimeType
  }

  /** `k` is the first position of the Drive holding an entry the query matches. */
  ghost predicate FirstMatch(drive: seq<DriveFile>, q: Query, k: int)
  {
    && 0 <= k < |drive|
    && Matches(q, drive[k])
    && forall k' :: 0 <= k' < k ==> !Matches(q, drive[k'])
  }

  /** `drive.ListFile({'q': ...}).GetList()` without `maxResults`, as
      `get_folder_id_by_name` calls it: PyDrive then follows every page, so
      the listing is every matching entry in the Drive's order. */
  function ListFile(drive: seq<DriveFile>, q: Query): (listed: seq<DriveFile>)
    ensures forall f {:trigger f in listed} :: f in listed <==> f in drive && Matches(q, f)
    ensures |listed| > 0 ==> exists k :: FirstMatch(drive, q, k) && listed[0] == drive[k]
    ensures |listed| == 0 ==> forall k :: 0 <= k < |drive| ==> !Matches(q, drive[k])
  {
    if |drive| == 0 then []
    else
      assert drive == [drive[0]] + drive[1..];
      var rest := ListFile(drive[1..], q);
      if Matches(q, drive[0]) then
        assert FirstMatch(drive, q, 0);
        [drive[0]] + rest
      else
        assert |rest| > 0 ==> exists k :: FirstMatch(drive, q, k) && rest[0] == drive[k] by {
          if |rest| > 0 {
            var k :| FirstMatch(drive[1..], q, k) && rest[0] == drive[1..][k];
            assert FirstMatch(drive, q, k + 1);
          }
        }
        rest
  }

  /** `get_folder_id_by_name`: the id of the first folder the query lists, or
      `None` when it lists nothing. */
  function GetFolderIdByName(drive: seq<DriveFile>, folderName: string, parentId: string): (id: Option<string>)
    ensures id.None? <==> forall k :: 0 <= k < |drive| ==> !Matches(FolderNamed(folderName, parentId), drive[k])
    ensures id.Some? ==> exists k ::
      && FirstMatch(drive, FolderNamed(folderName, parentId), k)
      && drive[k].id == id.value
      && drive[k].title == folderName
      && !drive[k].trashed
  {
    var fileList := ListFile(drive, FolderNamed(folderName, parentId));
    if |fileList| > 0 then Some(fileList[0].id) else None
  }

  /** The `maxResults` that `download_and_clean` passes. */
  const MaxResults: nat := 1000

  /** `GetList()` with `maxResults` set returns only the first page: at most
      `MaxResults` of the matching entries, the first ones in the Drive's order. */
  function FirstPage(drive: seq<DriveFile>, q: Query): (page: seq<DriveFile>)
    ensures |page| <= MaxResults
    ensures |page| == MaxResults || page == ListFile(drive, q)
    ensures page <= ListFile(drive, q)
  {
    var listed := ListFile(drive, q);
    if |listed| <= MaxResults then listed else listed[..MaxResults]
  }

  /** What `download_and_clean` asks the Drive to do: save a file's content
      under a local directory and name, or delete a file. */
  datatype DriveAction = Download(fileId: string, saveDir: string, localName: string) | Delete(fileId: string)

  /** `k` is the first position of the listing whose title is `name`. */
  ghost predicate FirstTitled(fileList: seq<DriveFile>, name: string, k: int)
  {
    && 0 <= k < |fileList|
    && fileList[k].title == name
    && forall k' :: 0 <= k' < k ==> fileList[k'].title != name
  }

  /** `download_and_clean`: list the first page of the folder's files, and
      for the first whose title is exactly `cloudFileName + ".tif"` download
      it and then delete it, touching nothing else; if no title on that page
      matches, do nothing. `downloadSucceeds` and `deleteSucceeds` say whether
      `GetContentFile` and `Delete` return normally. An exception from either
      leaves the function (`raised`); one from the download does so before the
      delete is issued. */
  method DownloadAndClean(drive: seq<DriveFile>, folderId: string, cloudFileName: string, savePath: string,
                          downloadSucceeds: bool, deleteSucceeds: bool)
    returns (actions: seq<DriveAction>, raised: bool)
    ensures |actions| == 0 <==>
      forall k :: 0 <= k < |FirstPage(drive, FilesIn(folderId))| ==>
        FirstPage(drive, FilesIn(folderId))[k].title != cloudFileName + TifSuffix
    ensures raised <==> |actions| > 0 && (!downloadSucceeds || !deleteSucceeds)
    ensures |actions| > 0 ==> exists k ::
      && FirstTitled(FirstPage(drive, FilesIn(folderId)), cloudFileName + TifSuffix, k)
      && actions == [Download(FirstPage(drive, FilesIn(folderId))[k].id, savePath, cloudFileName + TifSuffix)]
                    + (if downloadSucceeds then [Delete(FirstPage(drive, FilesIn(folderId))[k].id)] else [])
  {
    var name := cloudFileName + TifSuffix;
    var fileList := FirstPage(drive, FilesIn(folderId));
    var i := 0;
    while i < |fileList|
      invariant 0 <= i <= |fileList|
      invariant forall k :: 0 <= k < i ==> fileList[k].title != name
    {
      var fileObj := fileList[i];
      if fileObj.title == name {
        actions := [Download(fileObj.id, savePath, name)];
        if !downloadSucceeds {
          raised := true;
          assert FirstTitled(fileList, name, i);
          return;
        }
        actions := actions + [Delete(fileObj.id)];
        raised := !deleteSucceeds;
        assert FirstTitled(fileList, name, i);
        return;
      }
      i := i + 1;
    }
    actions, raised := [], false;
  }
}
