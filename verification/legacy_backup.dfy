/** The original full-backup script: for every folder that carries no excluded flag,
    list its messages, clear its flat mbox file and append every message again in
    listing order. */
module LegacyBackup {
  import opened Base
  import opened Text
  import opened Archive
  import opened Sync
  import opened FolderInfo
  import opened Folder
  import opened SyncTheorems

  /** `retrieveMessageIds`: SEARCH must succeed; the references are the whitespace
      separated tokens of the first reply line. */
  function RetrieveMessageIds(search: Reply<string>): (r: Result<seq<Ref>>)
    ensures r.Raised? <==> search.status != OK
    ensures r.Raised? ==> r.message == "Error calling retrieve mails"
    ensures r.Ok? ==> forall i :: 0 <= i < |r.value| ==> |r.value[i]| > 0 && NoneIn(r.value[i], ByteSpace)
  {
    match CheckResponse(search.status, "retrieve mails")
    case Raised(m) => Raised(m)
    case Ok(_) => Ok(Split(search.data, ByteSpace))
  }

  /** A listing of well-formed references is read back as exactly those references. */
  lemma MessageIdsRoundTrip(refs: seq<Ref>)
    requires forall i :: 0 <= i < |refs| ==> |refs[i]| > 0 && NoneIn(refs[i], ByteSpace)
    ensures RetrieveMessageIds(Reply(OK, JoinWith(refs, " "))) == Ok(refs)
  {
    SplitJoin(refs, ByteSpace);
  }

  /** The fetch loop either appends every message or stops at the first reference
      whose fetch fails, numbered `at`. */
  datatype FetchOutcome = Fetched(box: Mbox) | Stopped(box: Mbox, at: nat)

  /** The loop of `saveMailbox`: fetch each reference in order and append it. */
  function FetchAll(s: Session, ids: seq<Ref>, box: Mbox): (r: FetchOutcome)
    ensures r.Fetched? <==> forall k :: 0 <= k < |ids| ==> s.body(ids[k]).status == OK
    ensures r.Fetched? ==>
      Contents(r.box) == Contents(box) + Bodies(s, ids) && Written(r.box) == Written(box) + Bodies(s, ids)
    ensures r.Stopped? ==>
      && r.at < |ids| && s.body(ids[r.at]).status != OK
      && (forall j :: 0 <= j < r.at ==> s.body(ids[j]).status == OK)
      && Written(r.box) == Written(box) + Bodies(s, ids[..r.at])
    decreases |ids|
  {
    if |ids| == 0 then
      assert Bodies(s, ids) == [];
      Fetched(box)
    else
      var reply := s.body(ids[0]);
      match CheckResponse(reply.status, "retrieve message")
      case Raised(_) =>
        assert Bodies(s, ids[..0]) == [];
        Stopped(box, 0)
      case Ok(_) =>
        var b := Add(box, reply.data);
        match FetchAll(s, ids[1..], b)
        case Fetched(c) =>
          FetchedCons(s, ids, box, c);
          Fetched(c)
        case Stopped(c, at) =>
          StoppedCons(s, ids, box, c, at);
          Stopped(c, at + 1)
  }

  /** A successful first fetch followed by a complete fetch of the rest is a
      complete fetch of the whole list. */
  lemma FetchedCons(s: Session, ids: seq<Ref>, box: Mbox, c: Mbox)
    requires |ids| > 0 && s.body(ids[0]).status == OK
    requires forall k :: 0 <= k < |ids[1..]| ==> s.body(ids[1..][k]).status == OK
    requires var b := Add(box, s.body(ids[0]).data);
      Contents(c) == Contents(b) + Bodies(s, ids[1..]) && Written(c) == Written(b) + Bodies(s, ids[1..])
    ensures forall k :: 0 <= k < |ids| ==> s.body(ids[k]).status == OK
    ensures Contents(c) == Contents(box) + Bodies(s, ids) && Written(c) == Written(box) + Bodies(s, ids)
  {
    forall k | 0 < k < |ids| ensures s.body(ids[k]).status == OK {
      assert ids[k] == ids[1..][k - 1];
    }
    BodiesCons(s, ids, |ids|);
    assert ids[..|ids|] == ids;
  }

  /** A successful first fetch followed by a fetch of the rest that stops at `at`
      stops the whole list at `at + 1`. */
  lemma StoppedCons(s: Session, ids: seq<Ref>, box: Mbox, c: Mbox, at: nat)
    requires |ids| > 0 && s.body(ids[0]).status == OK
    requires at < |ids[1..]| && s.body(ids[1..][at]).status != OK
    requires forall j :: 0 <= j < at ==> s.body(ids[1..][j]).status == OK
    requires Written(c) == Written(Add(box, s.body(ids[0]).data)) + Bodies(s, ids[1..][..at])
    ensures at + 1 < |ids| && s.body(ids[at + 1]).status != OK
    ensures forall j :: 0 <= j < at + 1 ==> s.body(ids[j]).status == OK
    ensures Written(c) == Written(box) + Bodies(s, ids[..at + 1])
  {
    forall j | 0 < j < at + 1 ensures s.body(ids[j]).status == OK {
      assert ids[j] == ids[1..][j - 1];
    }
    BodiesCons(s, ids, at + 1);
  }

  /** The messages of the first `n` references are the first one's followed by
      those of the next `n - 1`. */
  lemma BodiesCons(s: Session, ids: seq<Ref>, n: nat)
    requires 0 < n <= |ids|
    ensures Bodies(s, ids[..n]) == [s.body(ids[0]).data] + Bodies(s, ids[1..][..n - 1])
  {
  }

  /** What `saveMailbox` leaves in the file: on success exactly the fetched messages,
      or, when a fetch fails part way, the old content (the clear is never flushed)
      followed by the messages fetched before the failure. */
  datatype SaveOutcome = Saved(file: File) | Interrupted(file: File, at: nat)

  /** `saveMailbox`: open, clear, append every message, close. */
  function SaveMailbox(s: Session, file: File, ids: seq<Ref>): (r: SaveOutcome)
    ensures r.Saved? <==> forall k :: 0 <= k < |ids| ==> s.body(ids[k]).status == OK
    ensures r.Saved? ==> r.file == Bodies(s, ids)
    ensures r.Interrupted? ==>
      && r.at < |ids| && s.body(ids[r.at]).status != OK
      && (forall j :: 0 <= j < r.at ==> s.body(ids[j]).status == OK)
      && r.file == file + Bodies(s, ids[..r.at])
  {
    var box := Clear(Open(file));
    match FetchAll(s, ids, box)
    case Fetched(b) => Saved(Contents(b))
    case Stopped(b, at) => Interrupted(Written(b), at)
  }

  /** `saveFolder`: list the folder's messages (the file is not opened when the
      listing fails) and save them into its flat mbox file. SELECT's status is not
      checked. */
  function SaveFolder(mail: Session, root: string, info: ImapFolderInfo, disk: Disk): (r: FolderRun)
    ensures !r.Skipped?
    ensures r.disk.configs == disk.configs
    ensures mail.search.status != OK ==> r == Failed(disk)
    ensures var path := FlatMboxPath(root, info);
      && r.disk.mboxes.Keys <= disk.mboxes.Keys + {path}
      && forall q :: q in disk.mboxes && q != path ==> q in r.disk.mboxes && r.disk.mboxes[q] == disk.mboxes[q]
    ensures r.Done? ==> r.disk.mboxes == disk.mboxes[FlatMboxPath(root, info) := Bodies(mail, Listed(mail))]
    ensures r.Failed? && mail.search.status == OK ==> var path := FlatMboxPath(root, info);
      path in r.disk.mboxes && PartlySaved(Listed(mail), mail, Stored(disk, path), r.disk.mboxes[path])
  {
    var path := FlatMboxPath(root, info);
    match RetrieveMessageIds(mail.search)
    case Raised(_) => Failed(disk)
    case Ok(ids) =>
      match SaveMailbox(mail, Stored(disk, path), ids)
      case Saved(f) => Done(disk.(mboxes := disk.mboxes[path := f]), true)
      case Interrupted(f, at) =>
        InterruptedAt(ids, mail, Stored(disk, path), at);
        Failed(disk.(mboxes := disk.mboxes[path := f]))
  }

  /** What a save interrupted part way leaves in the file `g` that held `f`: the old
      content, then the messages of the first references in listing order, all of
      whose fetches succeeded, up to a reference whose fetch failed. */
  predicate PartlySaved(ids: seq<Ref>, s: Session, f: File, g: File) {
    && |f| <= |g| < |f| + |ids| && g[..|f|] == f
    && var at := |g| - |f|;
    && g[|f|..] == Bodies(s, ids[..at])
    && s.body(ids[at]).status != OK
    && forall j :: 0 <= j < at ==> s.body(ids[j]).status == OK
  }

  lemma InterruptedAt(ids: seq<Ref>, s: Session, f: File, at: nat)
    requires at < |ids| && s.body(ids[at]).status != OK
    requires forall j :: 0 <= j < at ==> s.body(ids[j]).status == OK
    ensures PartlySaved(ids, s, f, f + Bodies(s, ids[..at]))
  {
    var g := f + Bodies(s, ids[..at]);
    assert g[..|f|] == f && g[|f|..] == Bodies(s, ids[..at]);
  }

  /** `processFolder`: parse, skip excluded folders, back up the rest. */
  function ProcessFolder(line: string, root: string, mail: Session, disk: Disk): (r: FolderRun)
    ensures Describe(line).Raised? ==> r == Failed(disk)
    ensures r.Skipped? <==> Describe(line).Ok? && Excluded(Describe(line).value.flags)
    ensures Describe(line).Ok? && !Excluded(Describe(line).value.flags) ==>
      r == SaveFolder(mail, root, Describe(line).value, disk)
  {
    match Describe(line)
    case Raised(_) => Failed(disk)
    case Ok(info) =>
      if !info.valid then Skipped
      else if Excluded(info.flags) then Skipped
      else SaveFolder(mail, root, info, disk)
  }

  /** A full backup replaces whatever the file held: two runs against the same
      folder leave the same file, whatever it held before either run. */
  lemma BackupForgetsOldContent(mail: Session, root: string, info: ImapFolderInfo, d1: Disk, d2: Disk)
    requires SaveFolder(mail, root, info, d1).Done? && SaveFolder(mail, root, info, d2).Done?
    ensures var path := FlatMboxPath(root, info);
      SaveFolder(mail, root, info, d1).disk.mboxes[path] == SaveFolder(mail, root, info, d2).disk.mboxes[path]
  {
  }
}
