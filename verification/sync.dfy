/** The reconciliation of one remote folder with one local mbox: index the archive
    by Message-Id, walk the remote message list confirming known identities and
    fetching unknown ones, then remove every indexed record left unconfirmed. */
module Sync {
  import opened Base
  import opened Text
  import opened Archive
  import MessageIds

  /** A session-scoped message reference as SEARCH returns it (a sequence number). */
  type Ref = string

  /** The key of the index: a Message-Id value, or None for a message without one. */
  type Identity = Option<string>

  /** The selected remote folder as the session exposes it: the reply to
      `SEARCH ALL`, and the replies a header fetch and a full fetch would give for
      each reference. */
  datatype Session = Session(
    search: Reply<string>,
    header: Ref -> Reply<string>,
    body: Ref -> Reply<Message>)

  /** What the index records for one identity: the mbox key of the record and
      whether the remote folder has been seen to hold that identity. */
  datatype SyncInfo = SyncInfo(mboxId: nat, existsInImap: bool)

  type Index = map<Identity, SyncInfo>

  // ---------------------------------------------------------------------------
  // Remote side
  // ---------------------------------------------------------------------------

  /** `_getIMAPIds`: SEARCH must succeed; the references are the whitespace-separated
      tokens of the first reply line. */
  function GetImapIds(search: Reply<string>): (r: Result<seq<Ref>>)
    ensures r.Raised? <==> search.status != OK
    ensures r.Ok? ==> forall i :: 0 <= i < |r.value| ==> |r.value[i]| > 0 && NoneIn(r.value[i], ByteSpace)
  {
    match CheckResponse(search.status, "retrieve mail IDs")
    case Raised(m) => Raised(m)
    case Ok(_) => Ok(Split(search.data, ByteSpace))
  }

  /** A listing of well-formed references is read back as exactly those references. */
  lemma ImapIdsRoundTrip(refs: seq<Ref>)
    requires forall i :: 0 <= i < |refs| ==> |refs[i]| > 0 && NoneIn(refs[i], ByteSpace)
    ensures GetImapIds(Reply(OK, JoinWith(refs, " "))) == Ok(refs)
  {
    SplitJoin(refs, ByteSpace);
  }

  /** `_getMessageID`: the header fetch must succeed; the identity is the bracketed
      slice of the reply. */
  function GetMessageId(s: Session, ref: Ref): (r: Result<string>)
    ensures r.Raised? <==> s.header(ref).status != OK
    ensures r.Ok? ==> r.value == MessageIds.ExtractId(s.header(ref).data)
  {
    match CheckResponse(s.header(ref).status, "retrieve mail Message-Id")
    case Raised(m) => Raised(m)
    case Ok(_) => Ok(MessageIds.ExtractId(s.header(ref).data))
  }

  /** The index key a remote reference is looked up under. */
  function IdOf(s: Session, ref: Ref): Identity {
    Some(MessageIds.ExtractId(s.header(ref).data))
  }

  /** The identities of a list of remote references. */
  function RemoteIds(s: Session, refs: seq<Ref>): set<Identity>
    decreases |refs|
  {
    if |refs| == 0 then {} else {IdOf(s, refs[0])} + RemoteIds(s, refs[1..])
  }

  lemma {:induction false} RemoteIdsMembers(s: Session, refs: seq<Ref>)
    ensures forall id :: id in RemoteIds(s, refs) <==> exists i :: 0 <= i < |refs| && IdOf(s, refs[i]) == id
    decreases |refs|
  {
    if |refs| > 0 {
      RemoteIdsMembers(s, refs[1..]);
      forall id | id in RemoteIds(s, refs)
        ensures exists i :: 0 <= i < |refs| && IdOf(s, refs[i]) == id
      {
        if id != IdOf(s, refs[0]) {
          assert id in RemoteIds(s, refs[1..]);
          var i :| 0 <= i < |refs[1..]| && IdOf(s, refs[1..][i]) == id;
          assert IdOf(s, refs[i + 1]) == id;
        }
      }
      forall id, i | 0 <= i < |refs| && IdOf(s, refs[i]) == id
        ensures id in RemoteIds(s, refs)
      {
        if i > 0 {
          assert IdOf(s, refs[1..][i - 1]) == id;
        }
      }
    }
  }

  // ---------------------------------------------------------------------------
  // Indexing the archive
  // ---------------------------------------------------------------------------

  /** Slot `j` of the archive is live and carries identity `id`. */
  predicate Holds(box: Mbox, j: int, id: Identity) {
    Present(box, j) && box.entries[j].message.messageId == id
  }

  /** `_createMsgsInfo`: one entry per identity found in the archive, pointing at the
      last record (in key order) that carries it, and not yet confirmed remotely. */
  function CreateMsgsInfo(box: Mbox): (idx: Index)
    ensures forall id :: id in idx <==> exists j :: Holds(box, j, id)
    ensures forall id :: id in idx ==> !idx[id].existsInImap && Holds(box, idx[id].mboxId, id)
    ensures forall id, j :: id in idx && idx[id].mboxId < j ==> !Holds(box, j, id)
    decreases |box.entries|
  {
    if |box.entries| == 0 then map[]
    else
      var n := |box.entries| - 1;
      var front := Mbox(box.entries[..n]);
      var idx := CreateMsgsInfo(front);
      assert forall j, id :: Holds(front, j, id) <==> j < n && Holds(box, j, id);
      if box.entries[n].live then
        assert Holds(box, n, box.entries[n].message.messageId);
        idx[box.entries[n].message.messageId := SyncInfo(n, false)]
      else
        assert forall id :: !Holds(box, n, id);
        idx
  }

  /** The index and the archive agree: every entry names a live record, and no two
      entries name the same record. */
  ghost predicate Tracks(box: Mbox, idx: Index) {
    && (forall id :: id in idx ==> Present(box, idx[id].mboxId))
    && (forall id1, id2 :: id1 in idx && id2 in idx && idx[id1].mboxId == idx[id2].mboxId ==> id1 == id2)
  }

  lemma IndexTracks(box: Mbox)
    ensures Tracks(box, CreateMsgsInfo(box))
  {
  }

  // ---------------------------------------------------------------------------
  // Adding what is missing
  // ---------------------------------------------------------------------------

  /** The state the add phase threads through the remote list: the archive, the
      index, and the references whose full content was fetched, in order. */
  datatype Pass = Pass(archive: Mbox, index: Index, fetched: seq<Ref>)

  /** The add phase either completes or stops at the first failing fetch, leaving
      the archive as it was at that point. */
  datatype AddOutcome = Added(pass: Pass) | Halted(archive: Mbox)

  /** `b` is `box` with live records appended after it, nothing else changed. */
  ghost predicate Extends(box: Mbox, b: Mbox) {
    && |box.entries| <= |b.entries|
    && b.entries[..|box.entries|] == box.entries
    && (forall j :: |box.entries| <= j < |b.entries| ==> b.entries[j].live)
  }

  /** One iteration of `_addMissingIMAPEmails` for reference `ref`. */
  function Step(s: Session, ref: Ref, box: Mbox, idx: Index): (r: AddOutcome)
    ensures r.Halted? <==> s.header(ref).status != OK || (IdOf(s, ref) !in idx && s.body(ref).status != OK)
    ensures r.Halted? ==> r.archive == box
    ensures r.Added? ==> var p := r.pass;
      && p.index.Keys == idx.Keys + {IdOf(s, ref)}
      && p.index[IdOf(s, ref)].existsInImap
      && (forall id :: id in idx && id != IdOf(s, ref) ==> p.index[id] == idx[id])
    ensures r.Added? && IdOf(s, ref) in idx ==>
      r.pass.archive == box && r.pass.fetched == [] && r.pass.index[IdOf(s, ref)].mboxId == idx[IdOf(s, ref)].mboxId
    ensures r.Added? && IdOf(s, ref) !in idx ==>
      && r.pass.archive == Add(box, s.body(ref).data)
      && r.pass.fetched == [ref]
      && r.pass.index[IdOf(s, ref)].mboxId == NextKey(box)
  {
    match GetMessageId(s, ref)
    case Raised(_) => Halted(box)
    case Ok(messageId) =>
      var id := Some(messageId);
      if id in idx then
        Added(Pass(box, idx[id := idx[id].(existsInImap := true)], []))
      else
        var reply := s.body(ref);
        match CheckResponse(reply.status, "retrieve message")
        case Raised(_) => Halted(box)
        case Ok(_) => Added(Pass(Add(box, reply.data), idx[id := SyncInfo(NextKey(box), true)], [ref]))
  }

  /** `_addMissingIMAPEmails`: `Step` over the remote references in order, stopping
      at the first failure. */
  function AddMissing(s: Session, refs: seq<Ref>, box: Mbox, idx: Index): (r: AddOutcome)
    ensures r.Halted? ==> Extends(box, r.archive)
    ensures r.Added? ==> Extends(box, r.pass.archive) && |r.pass.archive.entries| == |box.entries| + |r.pass.fetched|
    decreases |refs|
  {
    if |refs| == 0 then Added(Pass(box, idx, []))
    else
      match Step(s, refs[0], box, idx)
      case Halted(b) =>
        ExtendsSelf(box);
        Halted(b)
      case Added(p) =>
        assert Extends(box, p.archive) && |p.archive.entries| == |box.entries| + |p.fetched| by {
          if p.archive == box { ExtendsSelf(box); } else { ExtendsByAdd(box, s.body(refs[0]).data); }
        }
        match AddMissing(s, refs[1..], p.archive, p.index)
        case Halted(b) =>
          ExtendsTrans(box, p.archive, b);
          Halted(b)
        case Added(q) =>
          ExtendsTrans(box, p.archive, q.archive);
          Added(q.(fetched := p.fetched + q.fetched))
  }

  lemma ExtendsSelf(box: Mbox)
    ensures Extends(box, box)
  {
  }

  lemma ExtendsByAdd(box: Mbox, m: Message)
    ensures Extends(box, Add(box, m))
  {
  }

  lemma ExtendsTrans(a: Mbox, b: Mbox, c: Mbox)
    requires Extends(a, b) && Extends(b, c)
    ensures Extends(a, c)
  {
    assert c.entries[..|a.entries|] == c.entries[..|b.entries|][..|a.entries|];
  }

  // ---------------------------------------------------------------------------
  // Removing what is unwanted
  // ---------------------------------------------------------------------------

  /** The keys of the index entries still unconfirmed. */
  function Unwanted(idx: Index): set<int> {
    set id | id in idx && !idx[id].existsInImap :: idx[id].mboxId as int
  }

  /** `_removeUnwantedMBoxEmails`: every unconfirmed entry's record is removed; the
      records of confirmed entries and records the index does not name are kept. */
  function RemoveUnwanted(box: Mbox, idx: Index): (r: Mbox)
    ensures |r.entries| == |box.entries| && Written(r) == Written(box)
    ensures forall id :: id in idx && !idx[id].existsInImap ==> !Present(r, idx[id].mboxId)
    ensures Tracks(box, idx) ==> forall id :: id in idx && idx[id].existsInImap ==> Present(r, idx[id].mboxId)
    ensures forall k :: (forall id :: id in idx ==> idx[id].mboxId != k) ==> (Present(r, k) <==> Present(box, k))
  {
    Discard(box, Unwanted(idx))
  }

  /** The removal loop as written: the index entries are visited in dictionary
      order and each unconfirmed one is removed with `mailbox.remove`, which raises
      on a key that is not there. */
  function RemoveInOrder(box: Mbox, idx: Index, order: seq<Identity>): Result<Mbox>
    requires forall i :: 0 <= i < |order| ==> order[i] in idx
    decreases |order|
  {
    if |order| == 0 then Ok(box)
    else
      var info := idx[order[0]];
      if info.existsInImap then RemoveInOrder(box, idx, order[1..])
      else
        match Remove(box, info.mboxId)
        case Raised(m) => Raised(m)
        case Ok(b) => RemoveInOrder(b, idx, order[1..])
  }

  // ---------------------------------------------------------------------------
  // The whole pass
  // ---------------------------------------------------------------------------

  /** A pass either completes, with the final archive, the index and the fetched
      references, or aborts at a failing command with the archive as it then was. */
  datatype SyncOutcome = Synced(archive: Mbox, index: Index, fetched: seq<Ref>) | Aborted(archive: Mbox)

  /** The references SEARCH lists. */
  function Listed(s: Session): seq<Ref> {
    Split(s.search.data, ByteSpace)
  }

  /** `syncMailbox` on an opened archive: list, index, add, remove. */
  function SyncMailbox(s: Session, box: Mbox): (r: SyncOutcome)
    ensures r.Aborted? ==> Extends(box, r.archive)
    ensures s.search.status != OK ==> r == Aborted(box)
  {
    match GetImapIds(s.search)
    case Raised(_) => Aborted(box)
    case Ok(refs) =>
      match AddMissing(s, refs, box, CreateMsgsInfo(box))
      case Halted(b) => Aborted(b)
      case Added(p) => Synced(RemoveUnwanted(p.archive, p.index), p.index, p.fetched)
  }
}
