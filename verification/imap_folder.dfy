/** The intermediate variant of the folder flow: every valid folder that carries no
    excluded flag is reconciled into a flat mbox file under the root, with no token
    gate and no config file, and the SELECT status is not checked. */
module ImapFolder {
  import opened Base
  import opened Archive
  import opened Sync
  import opened FolderInfo
  import opened Folder
  import opened SyncTheorems

  /** `_syncFolder`: reconcile the folder's flat mbox file. A failed SEARCH raises
      before the file is opened, so it leaves the disk as it was; otherwise the file
      exists afterwards. */
  function SyncFolder(mail: Session, root: string, info: ImapFolderInfo, disk: Disk): (r: FolderRun)
    ensures !r.Skipped?
    ensures r.disk.configs == disk.configs
    ensures mail.search.status != OK ==> r == Failed(disk)
    ensures mail.search.status == OK ==> r.disk.mboxes.Keys == disk.mboxes.Keys + {FlatMboxPath(root, info)}
    ensures r.disk.mboxes.Keys <= disk.mboxes.Keys + {FlatMboxPath(root, info)}
    ensures forall q :: q in disk.mboxes && q != FlatMboxPath(root, info) ==> r.disk.mboxes[q] == disk.mboxes[q]
    ensures r.Done? <==> SyncMailbox(mail, Open(Stored(disk, FlatMboxPath(root, info)))).Synced?
    ensures r.Done? ==> var path := FlatMboxPath(root, info);
      r.changed && r.disk.mboxes[path] == Contents(SyncMailbox(mail, Open(Stored(disk, path))).archive)
    ensures r.Failed? ==> var f := Stored(disk, FlatMboxPath(root, info));
      var g := Stored(r.disk, FlatMboxPath(root, info));
      |f| <= |g| && g[..|f|] == f
  {
    SyncFile(mail, disk, FlatMboxPath(root, info))
  }

  /** `processFolder`: parse, skip excluded folders, reconcile the rest. */
  function ProcessFolder(line: string, root: string, mail: Session, disk: Disk): (r: FolderRun)
    ensures Describe(line).Raised? ==> r == Failed(disk)
    ensures r.Skipped? <==> Describe(line).Ok? && Excluded(Describe(line).value.flags)
    ensures Describe(line).Ok? && !Excluded(Describe(line).value.flags) ==>
      r == SyncFolder(mail, root, Describe(line).value, disk)
  {
    match Describe(line)
    case Raised(_) => Failed(disk)
    case Ok(info) =>
      if !info.valid then Skipped
      else if Excluded(info.flags) then Skipped
      else SyncFolder(mail, root, info, disk)
  }

  /** Without a gate, a folder whose replies all succeed is reconciled on every run,
      whatever is stored locally: its flat file ends up holding exactly what a
      completed pass over the stored file flushes. */
  lemma AlwaysReconciled(line: string, root: string, mail: Session, disk: Disk)
    requires Describe(line).Ok? && !Excluded(Describe(line).value.flags)
    requires mail.search.status == OK
    requires forall k :: 0 <= k < |Listed(mail)| ==>
      mail.header(Listed(mail)[k]).status == OK && mail.body(Listed(mail)[k]).status == OK
    ensures var path := FlatMboxPath(root, Describe(line).value);
      var r := ProcessFolder(line, root, mail, disk);
      r.Done? && r.changed && r.disk.mboxes[path] == Contents(SyncMailbox(mail, Open(Stored(disk, path))).archive)
  {
    AllRepliesOk(mail, Stored(disk, FlatMboxPath(root, Describe(line).value)));
  }
}
