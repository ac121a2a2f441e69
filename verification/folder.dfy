/** The folder flow of the incremental tool: derive the local paths from the
    folder name, load the stored token pair, SELECT the folder and compare its
    UIDVALIDITY and UIDNEXT (section 2.3.1.1 of RFC 3501) with the pair, and only
    when they differ reconcile the mbox and then store the new pair. */
module Folder {
  import opened Base
  import opened Text
  import opened Archive
  import opened Sync
  import opened FolderInfo
  import opened SyncTheorems
  import Config

  // ---------------------------------------------------------------------------
  // Local paths
  // ---------------------------------------------------------------------------

  /** `_setFileFoldersNames`: the name is split on the delimiter; every piece but the
      last becomes a directory under `root`, and the last names the mbox and config
      files. Splitting on an empty delimiter raises ValueError. */
  function SetFileFoldersNames(info: ImapFolderInfo, root: string): (r: Result<ImapFolderInfo>)
    ensures r.Raised? <==> info.delimiter == ""
    ensures r.Ok? ==> var parts := SplitOn(info.name, info.delimiter);
      && r.value.name == info.name && r.value.delimiter == info.delimiter && r.value.flags == info.flags
      && r.value.valid == info.valid
      && JoinWith(parts, info.delimiter) == info.name
      && r.value.paths == Some(LocalPaths(
           PathJoinAll(root, parts[..|parts| - 1]),
           parts[|parts| - 1] + ".mbox",
           parts[|parts| - 1] + ".config"))
    ensures r.Ok? && !Contains(info.name, info.delimiter) ==>
      r.value.paths == Some(LocalPaths(root, info.name + ".mbox", info.name + ".config"))
  {
    if info.delimiter == "" then Raised("ValueError")
    else
      var parts := SplitOn(info.name, info.delimiter);
      SplitOnWhole(info.name, info.delimiter);
      var last := parts[|parts| - 1];
      Ok(SetFileNames(info, PathJoinAll(root, parts[..|parts| - 1]), last + ".mbox", last + ".config"))
  }

  /** A name without the delimiter is one piece. */
  lemma SplitOnWhole(name: string, delim: string)
    requires |delim| > 0
    ensures !Contains(name, delim) ==> SplitOn(name, delim) == [name]
  {
    if !Contains(name, delim) {
      SplitOnAbsent(name, delim);
    }
  }

  /** A two-level name `parent<delim>child` with a one-character delimiter keeps
      its files in the directory `root/parent`, named after the child. */
  lemma TwoLevelName(info: ImapFolderInfo, root: string, parent: string, c: char, child: string)
    requires info.delimiter == [c] && info.name == parent + [c] + child
    requires c !in parent && c !in child
    ensures SetFileFoldersNames(info, root).Ok?
    ensures SetFileFoldersNames(info, root).value.paths ==
      Some(LocalPaths(PathJoin(root, parent), child + ".mbox", child + ".config"))
  {
    SplitOnFirst(parent, c, child);
    AbsentChar(child, c);
    SplitOnAbsent(child, [c]);
    var parts := SplitOn(info.name, [c]);
    assert parts == [parent, child];
    assert parts[..1] == [parent] && [parent][1..] == [];
    assert PathJoinAll(root, [parent]) == PathJoin(root, parent);
  }

  /** The mbox file and the config file of a folder are different files: one ends
      in `.mbox`, the other in `.config`. */
  lemma DistinctFiles(info: ImapFolderInfo, root: string)
    requires SetFileFoldersNames(info, root).Ok?
    ensures var p := SetFileFoldersNames(info, root).value.paths.value;
      PathJoin(p.mboxFolderName, p.mboxFileName) != Config.ConfigPath(p.mboxFolderName, p.cfgFileName)
  {
    var p := SetFileFoldersNames(info, root).value.paths.value;
    var a := PathJoin(p.mboxFolderName, p.mboxFileName);
    var b := Config.ConfigPath(p.mboxFolderName, p.cfgFileName);
    assert a[|a| - 1] == 'x' && b[|b| - 1] == 'g';
  }

  // ---------------------------------------------------------------------------
  // The change gate
  // ---------------------------------------------------------------------------

  /** The server side of a folder as SELECT reports it: the status, the UIDVALIDITY
      and UIDNEXT response codes (None when the server sent none), and the
      selected folder's messages. */
  datatype Server = Server(selectStatus: string, uidValidity: Option<string>, uidNext: Option<string>, mail: Session)

  /** The stored pair differs from the server's. */
  predicate Changed(d: Config.ConfigData, uidValidity: string, uidNext: string) {
    uidNext != d.uidNext || uidValidity != d.uidValidity
  }

  /** `_selectFolder`: SELECT must succeed; a missing UIDVALIDITY or UIDNEXT code
      raises AttributeError when it is decoded; otherwise the folder counts as
      changed exactly when either value differs from the stored one, and then the
      loaded config takes the server's pair. */
  function SelectFolder(server: Server, cfg: Config.Config): (r: Result<(bool, Config.Config)>)
    ensures server.selectStatus != OK ==> r == Raised("Error calling select folder")
    ensures r.Raised? <==> server.selectStatus != OK || server.uidValidity.None? || server.uidNext.None?
    ensures r.Ok? ==> var (changed, c) := r.value;
      && (changed <==> Changed(cfg.data, server.uidValidity.value, server.uidNext.value))
      && (changed ==> c == Config.Config(cfg.path, Config.ConfigData(server.uidNext.value, server.uidValidity.value)))
      && (!changed ==> c == cfg)
  {
    match CheckResponse(server.selectStatus, "select folder")
    case Raised(m) => Raised(m)
    case Ok(_) =>
      if server.uidValidity.None? || server.uidNext.None? then Raised("AttributeError")
      else
        var uidValidity := server.uidValidity.value;
        var uidNext := server.uidNext.value;
        if Changed(cfg.data, uidValidity, uidNext) then Ok((true, Config.UpdateUids(cfg, uidValidity, uidNext)))
        else Ok((false, cfg))
  }

  // ---------------------------------------------------------------------------
  // Syncing one folder
  // ---------------------------------------------------------------------------

  /** The local files the tool reads and writes: mbox files and config files by path.
      A path with no mbox file reads as an empty one. */
  datatype Disk = Disk(mboxes: map<string, File>, configs: map<string, Config.Json>)

  function Stored(disk: Disk, path: string): File {
    if path in disk.mboxes then disk.mboxes[path] else []
  }

  /** How handling one folder ends: done (and whether the folder was reconciled),
      skipped by the filter, or stopped by an exception with the files as they were
      left. */
  datatype FolderRun = Done(disk: Disk, changed: bool) | Skipped | Failed(disk: Disk)

  /** The mbox file of a folder whose paths are set. */
  function MboxPath(p: LocalPaths): string {
    PathJoin(p.mboxFolderName, p.mboxFileName)
  }

  /** `syncMailbox` on the mbox file at `path`. SEARCH runs before the file is opened,
      so a failed SEARCH touches no file; once opened (and created when missing), an
      aborted pass leaves the file with what was already appended, and a completed
      pass leaves what its flush writes. */
  function SyncFile(mail: Session, disk: Disk, path: string): (r: FolderRun)
    ensures !r.Skipped? && r.disk.configs == disk.configs
    ensures mail.search.status != OK ==> r == Failed(disk)
    ensures mail.search.status == OK ==> r.disk.mboxes.Keys == disk.mboxes.Keys + {path}
    ensures forall q :: q in disk.mboxes && q != path ==> r.disk.mboxes[q] == disk.mboxes[q]
    ensures r.Done? <==> SyncMailbox(mail, Open(Stored(disk, path))).Synced?
    ensures r.Done? ==> r.changed && r.disk.mboxes[path] == Contents(SyncMailbox(mail, Open(Stored(disk, path))).archive)
    ensures r.Failed? ==> var f := Stored(disk, path);
      var g := Stored(r.disk, path);
      |f| <= |g| && g[..|f|] == f
  {
    if mail.search.status != OK then Failed(disk)
    else
      match SyncMailbox(mail, Open(Stored(disk, path)))
      case Aborted(a) =>
        AbortKeepsFile(mail, Stored(disk, path));
        Failed(disk.(mboxes := disk.mboxes[path := Written(a)]))
      case Synced(a, _, _) => Done(disk.(mboxes := disk.mboxes[path := Contents(a)]), true)
  }

  /** `_syncFolder`: load the config, run the gate, and only on a change reconcile the
      mbox and then write the config; a reconciliation that fails never reaches the
      write. */
  function SyncFolder(server: Server, info: ImapFolderInfo, disk: Disk): (r: FolderRun)
    requires info.paths.Some?
    ensures !r.Skipped?
    ensures server.selectStatus != OK ==> r == Failed(disk)
    ensures server.mail.search.status != OK ==> r.disk == disk
    ensures var path := MboxPath(info.paths.value);
      && disk.mboxes.Keys <= r.disk.mboxes.Keys <= disk.mboxes.Keys + {path}
      && forall q :: q in disk.mboxes && q != path ==> r.disk.mboxes[q] == disk.mboxes[q]
    ensures r.Failed? ==> r.disk.configs == disk.configs
    ensures r.Failed? ==> var f := Stored(disk, MboxPath(info.paths.value));
      var g := Stored(r.disk, MboxPath(info.paths.value));
      |f| <= |g| && g[..|f|] == f
    ensures r.Done? && !r.changed ==> r.disk == disk
    ensures r.Done? && r.changed ==> var p := info.paths.value;
      && server.uidNext.Some? && server.uidValidity.Some?
      && Config.ConfigPath(p.mboxFolderName, p.cfgFileName) in r.disk.configs
      && Config.Load(Some(r.disk.configs[Config.ConfigPath(p.mboxFolderName, p.cfgFileName)]))
         == Ok(Config.ConfigData(server.uidNext.value, server.uidValidity.value))
      && r.disk.mboxes == disk.mboxes[MboxPath(p) := Contents(SyncMailbox(server.mail, Open(Stored(disk, MboxPath(p)))).archive)]
    ensures r.Done? && r.changed ==> var cp := Config.ConfigPath(info.paths.value.mboxFolderName, info.paths.value.cfgFileName);
      && r.disk.configs.Keys == disk.configs.Keys + {cp}
      && forall q :: q in disk.configs && q != cp ==> r.disk.configs[q] == disk.configs[q]
  {
    var p := info.paths.value;
    var path := MboxPath(p);
    match Config.Open(disk.configs, p.mboxFolderName, p.cfgFileName)
    case Raised(_) => Failed(disk)
    case Ok(cfg) =>
      match SelectFolder(server, cfg)
      case Raised(_) => Failed(disk)
      case Ok((changed, updated)) =>
        if !changed then Done(disk, false)
        else
          match SyncFile(server.mail, disk, path)
          case Done(d, _) => Done(d.(configs := Config.Write(updated, disk.configs)), true)
          case Failed(d) => Failed(d)
  }

  /** The gate decides alone: when the stored pair equals the server's, the folder's
      messages are never looked at and no file changes. */
  lemma UnchangedFolderUntouched(server: Server, info: ImapFolderInfo, disk: Disk, mail: Session)
    requires info.paths.Some?
    requires var p := info.paths.value;
      Config.Open(disk.configs, p.mboxFolderName, p.cfgFileName).Ok? &&
      server.selectStatus == OK && server.uidValidity.Some? && server.uidNext.Some? &&
      !Changed(Config.Open(disk.configs, p.mboxFolderName, p.cfgFileName).value.data,
               server.uidValidity.value, server.uidNext.value)
    ensures SyncFolder(server, info, disk) == Done(disk, false)
    ensures SyncFolder(server.(mail := mail), info, disk) == Done(disk, false)
  {
    var p := info.paths.value;
    var cfg := Config.Open(disk.configs, p.mboxFolderName, p.cfgFileName).value;
    GateClosed(server, cfg);
    GateClosed(server.(mail := mail), cfg);
  }

  /** Matching tokens keep the gate closed, whatever the folder holds. */
  lemma GateClosed(server: Server, cfg: Config.Config)
    requires server.selectStatus == OK && server.uidValidity.Some? && server.uidNext.Some?
    requires !Changed(cfg.data, server.uidValidity.value, server.uidNext.value)
    ensures SelectFolder(server, cfg) == Ok((false, cfg))
  {
  }

  /** A folder handled once is unchanged for the same server state: handling it again
      reports no change and touches no file. */
  lemma SyncFolderIdempotent(server: Server, info: ImapFolderInfo, disk: Disk)
    requires info.paths.Some?
    requires SyncFolder(server, info, disk).Done?
    ensures var d := SyncFolder(server, info, disk).disk;
      SyncFolder(server, info, d) == Done(d, false)
  {
    var p := info.paths.value;
    var r := SyncFolder(server, info, disk);
    if r.changed {
      StoredPairReloads(r.disk.configs, p, server.uidNext.value, server.uidValidity.value);
      UnchangedFolderUntouched(server, info, r.disk, server.mail);
    }
  }

  /** A config file holding a pair opens with that pair. */
  lemma StoredPairReloads(configs: map<string, Config.Json>, p: LocalPaths, uidNext: string, uidValidity: string)
    requires var cp := Config.ConfigPath(p.mboxFolderName, p.cfgFileName);
      cp in configs && Config.Load(Some(configs[cp])) == Ok(Config.ConfigData(uidNext, uidValidity))
    ensures var c := Config.Open(configs, p.mboxFolderName, p.cfgFileName);
      c.Ok? && c.value.data == Config.ConfigData(uidNext, uidValidity)
  {
  }

  // ---------------------------------------------------------------------------
  // One LIST line
  // ---------------------------------------------------------------------------

  /** `processFolder`: parse the line (a line that does not parse raises), skip
      folders carrying an excluded flag, set the local paths and sync. */
  function ProcessFolder(line: string, root: string, server: Server, disk: Disk): (r: FolderRun)
    ensures Describe(line).Raised? ==> r == Failed(disk)
    ensures Describe(line).Ok? && Excluded(Describe(line).value.flags) ==> r == Skipped
    ensures Describe(line).Ok? && !Excluded(Describe(line).value.flags) ==>
      var info := Describe(line).value;
      (if info.delimiter == "" then r == Failed(disk)
       else r == SyncFolder(server, SetFileFoldersNames(info, root).value, disk))
  {
    match Describe(line)
    case Raised(_) => Failed(disk)
    case Ok(info) =>
      if !info.valid then Skipped
      else if Excluded(info.flags) then Skipped
      else
        match SetFileFoldersNames(info, root)
        case Raised(_) => Failed(disk)
        case Ok(named) => SyncFolder(server, named, disk)
  }
}
